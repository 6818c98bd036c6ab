/**
 * The reconciliation pass of main.py (`background_parser_async`, one round of
 * its `while True` loop): every scraped product is normalised with
 * `convert_price_to_int`, looked up by (name, cost) in the `Prices` table, and
 * inserted and committed only when no row matches, one item at a time.
 *
 * `Run` is the loop over the items for a given iteration; `Pass` runs it with
 * `Step`, the iteration as intended, and `PassAsWritten` with the iteration as
 * main.py writes it. The lemmas about the table hold for every iteration that
 * follows the lookup rule (`FollowsLookup`), which `Step` does.
 * `PriceTable.ReconcilePass` is the loop itself, proved against `Pass`.
 */
module Reconcile {
  import opened Common
  import opened Prices
  import opened Catalog

  /** A row of the `Prices` table. */
  datatype PriceRow = PriceRow(id: int, name: string, cost: int)

  /** The pair the pass looks rows up by. */
  datatype Key = Key(name: string, cost: int)

  function KeyOf(row: PriceRow): Key {
    Key(row.name, row.cost)
  }

  /** Some row of the table has this name and this cost. */
  predicate Stores(rows: seq<PriceRow>, k: Key) {
    exists i :: 0 <= i < |rows| && KeyOf(rows[i]) == k
  }

  /** No two rows share a (name, cost) pair. */
  predicate NoDuplicates(rows: seq<PriceRow>) {
    forall i, j :: 0 <= i < j < |rows| ==> KeyOf(rows[i]) != KeyOf(rows[j])
  }

  /** The keys of the rows, in table order. */
  function KeysOf(rows: seq<PriceRow>): (ks: seq<Key>)
    ensures |ks| == |rows|
    ensures forall i :: 0 <= i < |rows| ==> ks[i] == KeyOf(rows[i])
  {
    if rows == [] then [] else KeysOf(rows[..|rows| - 1]) + [KeyOf(rows[|rows| - 1])]
  }

  /** The largest id in a non-empty table. */
  function MaxId(rows: seq<PriceRow>): (m: int)
    requires rows != []
    ensures forall i :: 0 <= i < |rows| ==> rows[i].id <= m
    ensures exists i :: 0 <= i < |rows| && rows[i].id == m
  {
    var n := |rows| - 1;
    if n == 0 then rows[0].id
    else
      var front := MaxId(rows[..n]);
      assert forall i :: 0 <= i < n ==> rows[..n][i] == rows[i];
      if rows[n].id > front then rows[n].id else front
  }

  /** The id SQLite gives a row inserted without one: one more than the
      largest id in the table, or 1 in an empty table. */
  function NextId(rows: seq<PriceRow>): (id: int)
    ensures forall i :: 0 <= i < |rows| ==> rows[i].id < id
    ensures rows == [] ==> id == 1
    ensures rows != [] ==> exists i :: 0 <= i < |rows| && rows[i].id == id - 1
  {
    if rows == [] then 1 else MaxId(rows) + 1
  }

  /** Two different rows of the table have this name and this cost. */
  predicate StoredTwice(rows: seq<PriceRow>, k: Key) {
    exists i, j :: 0 <= i < j < |rows| && KeyOf(rows[i]) == k && KeyOf(rows[j]) == k
  }

  lemma StoredTwiceSnoc(rows: seq<PriceRow>, k: Key)
    requires rows != []
    ensures var n := |rows| - 1;
      StoredTwice(rows, k) <==> StoredTwice(rows[..n], k) || (KeyOf(rows[n]) == k && Stores(rows[..n], k))
  {
    var n := |rows| - 1;
    if StoredTwice(rows, k) {
      var i, j :| 0 <= i < j < |rows| && KeyOf(rows[i]) == k && KeyOf(rows[j]) == k;
      assert rows[..n][i] == rows[i];
      if j < n {
        assert rows[..n][j] == rows[j];
      }
    }
    if StoredTwice(rows[..n], k) {
      var i, j :| 0 <= i < j < n && KeyOf(rows[..n][i]) == k && KeyOf(rows[..n][j]) == k;
      assert rows[i] == rows[..n][i] && rows[j] == rows[..n][j];
    }
    if KeyOf(rows[n]) == k && Stores(rows[..n], k) {
      var i :| 0 <= i < n && KeyOf(rows[..n][i]) == k;
      assert rows[i] == rows[..n][i];
    }
  }

  /** The rows matching a key, in table order: what the `select` returns. */
  function Matches(rows: seq<PriceRow>, k: Key): (m: seq<PriceRow>)
    ensures |m| == 0 <==> !Stores(rows, k)
    ensures |m| >= 2 <==> StoredTwice(rows, k)
    ensures forall r :: r in m ==> r in rows && KeyOf(r) == k
  {
    if rows == [] then []
    else
      var n := |rows| - 1;
      var front := Matches(rows[..n], k);
      assert forall i :: 0 <= i < n ==> rows[..n][i] == rows[i];
      StoredTwiceSnoc(rows, k);
      if KeyOf(rows[n]) == k then front + [rows[n]] else front
  }

  /** What `scalar_one_or_none` makes of the matching rows. */
  datatype Lookup = NoRow | OneRow(row: PriceRow) | ManyRows

  function LookupRow(rows: seq<PriceRow>, k: Key): (r: Lookup)
    ensures r.NoRow? <==> !Stores(rows, k)
    ensures r.ManyRows? <==> StoredTwice(rows, k)
    ensures r.OneRow? ==> r.row in rows && KeyOf(r.row) == k
  {
    var m := Matches(rows, k);
    if |m| == 0 then NoRow
    else if |m| == 1 then OneRow(m[0])
    else ManyRows
  }

  /** Why a pass stops before its last item: the exception that escapes the loop. */
  datatype PassError =
    | PriceNotNumeric(price: string)   // `int()` in `convert_price_to_int`: no digit, or too many
    | MultipleRows(key: Key)           // `scalar_one_or_none` on two or more rows
    | LookupNotAwaited                 // `.scalar_one_or_none()` on an un-awaited coroutine

  /** What one item does to the table. */
  datatype StepResult = Inserted(row: PriceRow) | AlreadyStored | StepFailed(error: PassError)

  /** The key an item is looked up by, when `convert_price_to_int` accepts
      its price: the item's name, and the value of the price's digits. */
  function ItemKey(item: Product): (r: Option<Key>)
    ensures r.None? <==> (forall i :: 0 <= i < |item.price| ==> !IsDigit(item.price[i])) || |Digits(item.price)| > MaxStrDigits
    ensures r.Some? ==> r.value.name == item.name && r.value.cost == PlaceValue(Digits(item.price))
  {
    match ConvertPriceToInt(item.price)
    case None => None
    case Some(cost) => Some(Key(item.name, cost))
  }

  /** One iteration of the loop, with the lookup awaited. */
  function Step(rows: seq<PriceRow>, item: Product): (r: StepResult)
    ensures r.Inserted? <==> ItemKey(item).Some? && !Stores(rows, ItemKey(item).value)
    ensures r.Inserted? ==> r.row == PriceRow(NextId(rows), item.name, ItemKey(item).value.cost)
    ensures r.AlreadyStored? ==> ItemKey(item).Some? && LookupRow(rows, ItemKey(item).value).OneRow?
    ensures r.StepFailed? ==>
      || (ItemKey(item).None? && r.error == PriceNotNumeric(item.price))
      || (ItemKey(item).Some? && LookupRow(rows, ItemKey(item).value).ManyRows?
          && r.error == MultipleRows(ItemKey(item).value))
  {
    match ItemKey(item)
    case None => StepFailed(PriceNotNumeric(item.price))
    case Some(k) =>
      match LookupRow(rows, k)
      case NoRow => Inserted(PriceRow(NextId(rows), k.name, k.cost))
      case OneRow(_) => AlreadyStored
      case ManyRows => StepFailed(MultipleRows(k))
  }

  /** One iteration of the loop as main.py writes it: `session.execute` is not
      awaited, so asking its result for `scalar_one_or_none` raises as soon as
      the price has been converted. */
  function StepAsWritten(rows: seq<PriceRow>, item: Product): (r: StepResult)
    ensures r.StepFailed?
    ensures ItemKey(item).Some? <==> r.error == LookupNotAwaited
    ensures ItemKey(item).None? ==> r.error == PriceNotNumeric(item.price)
  {
    match ItemKey(item)
    case None => StepFailed(PriceNotNumeric(item.price))
    case Some(_) => StepFailed(LookupNotAwaited)
  }

  /** An iteration of the loop: what one item does to the table. */
  type Stepper = (seq<PriceRow>, Product) -> StepResult

  /** How an item's key is read off its name and price text. */
  type KeyReader = Product -> Option<Key>

  /** The lookup rule, for one table and one item: no key (a price that does
      not convert) raises; a key held by no row is inserted with the next id; a key
      held by one row changes nothing; a key held by several rows raises. */
  predicate LookupRule(keyFor: KeyReader, rows: seq<PriceRow>, item: Product, r: StepResult) {
    match keyFor(item)
    case None => r == StepFailed(PriceNotNumeric(item.price))
    case Some(k) =>
      match LookupRow(rows, k)
      case NoRow => r == Inserted(PriceRow(NextId(rows), k.name, k.cost))
      case OneRow(_) => r == AlreadyStored
      case ManyRows => r == StepFailed(MultipleRows(k))
  }

  /** The iteration follows the lookup rule on every table and every item. */
  ghost predicate FollowsLookup(step: Stepper, keyFor: KeyReader) {
    forall rows, item {:trigger LookupRule(keyFor, rows, item, step(rows, item))} ::
      LookupRule(keyFor, rows, item, step(rows, item))
  }

  /** The intended iteration follows the lookup rule, with keys read by
      `convert_price_to_int`. */
  lemma StepFollowsLookup()
    ensures FollowsLookup(Step, ItemKey)
  {
    forall rows, item ensures LookupRule(ItemKey, rows, item, Step(rows, item)) {
    }
  }

  datatype PassOutcome = Completed | Stopped(at: nat, error: PassError)

  datatype PassResult = PassResult(rows: seq<PriceRow>, outcome: PassOutcome)

  /** The `for item in data` loop: items are processed in order, each insert
      committed before the next lookup; the first item whose iteration raises
      stops the pass, and the rows committed before it stay. */
  function Run(step: Stepper, rows: seq<PriceRow>, items: seq<Product>): (r: PassResult)
    ensures |rows| <= |r.rows|
    ensures r.outcome.Stopped? ==> r.outcome.at < |items|
    decreases |items|
  {
    if items == [] then PassResult(rows, Completed)
    else
      var n := |items| - 1;
      var prev := Run(step, rows, items[..n]);
      if prev.outcome.Stopped? then prev
      else
        match step(prev.rows, items[n])
        case StepFailed(e) => PassResult(prev.rows, Stopped(n, e))
        case AlreadyStored => prev
        case Inserted(row) => PassResult(prev.rows + [row], Completed)
  }

  /** The pass as intended. */
  function Pass(rows: seq<PriceRow>, items: seq<Product>): (r: PassResult)
    ensures rows <= r.rows
    ensures r.outcome.Completed? ==>
      forall i :: 0 <= i < |items| ==> ItemKey(items[i]).Some? && LookupRow(r.rows, ItemKey(items[i]).value).OneRow?
  {
    RunAppendsOnly(Step, rows, items);
    StepFollowsLookup();
    var r := Run(Step, rows, items);
    if r.outcome.Completed? then
      CompletedPassStoresEachItemOnce(Step, ItemKey, rows, items);
      r
    else r
  }

  /** The pass as main.py writes it. */
  function PassAsWritten(rows: seq<PriceRow>, items: seq<Product>): (r: PassResult)
    ensures r.rows == rows
    ensures items != [] ==> r.outcome.Stopped? && r.outcome.at == 0
  {
    RunAsWrittenStoresNothing(rows, items);
    Run(StepAsWritten, rows, items)
  }

  /** A pass never modifies or removes a row: it only appends. */
  lemma {:induction false} RunAppendsOnly(step: Stepper, rows: seq<PriceRow>, items: seq<Product>)
    ensures rows <= Run(step, rows, items).rows
    decreases |items|
  {
    if items != [] {
      RunAppendsOnly(step, rows, items[..|items| - 1]);
    }
  }

  /** Once a prefix of the items has stopped the pass, the rest changes nothing. */
  lemma {:induction false} RunStopSticks(step: Stepper, rows: seq<PriceRow>, items: seq<Product>, k: nat)
    requires k <= |items|
    requires Run(step, rows, items[..k]).outcome.Stopped?
    ensures Run(step, rows, items) == Run(step, rows, items[..k])
    decreases |items|
  {
    if k == |items| {
      assert items[..k] == items;
    } else {
      var n := |items| - 1;
      assert items[..n][..k] == items[..k];
      RunStopSticks(step, rows, items[..n], k);
    }
  }

  /** A stopped pass keeps exactly what the items before the failing one
      committed, and the failing item is the one whose iteration raised. */
  lemma {:induction false} RunStopped(step: Stepper, rows: seq<PriceRow>, items: seq<Product>)
    requires Run(step, rows, items).outcome.Stopped?
    ensures var r := Run(step, rows, items);
      && Run(step, rows, items[..r.outcome.at]) == PassResult(r.rows, Completed)
      && step(r.rows, items[r.outcome.at]) == StepFailed(r.outcome.error)
    decreases |items|
  {
    var n := |items| - 1;
    var prev := Run(step, rows, items[..n]);
    if prev.outcome.Stopped? {
      RunStopped(step, rows, items[..n]);
      var at := prev.outcome.at;
      assert items[..n][..at] == items[..at];
      assert items[..n][at] == items[at];
    }
  }

  /** As written, no pass ever inserts a row: the table is left as it was, and
      a pass over any item stops at the first. */
  lemma {:induction false} RunAsWrittenStoresNothing(rows: seq<PriceRow>, items: seq<Product>)
    ensures Run(StepAsWritten, rows, items).rows == rows
    ensures items != [] ==> Run(StepAsWritten, rows, items).outcome.Stopped? && Run(StepAsWritten, rows, items).outcome.at == 0
    decreases |items|
  {
    if items != [] {
      RunAsWrittenStoresNothing(rows, items[..|items| - 1]);
    }
  }

  lemma ThousandDigits()
    ensures DecimalValue("1000") == 1000
  {
    assert DecimalValue("1") == 1 by { assert "1"[..0] == ""; }
    assert DecimalValue("10") == 10 by { assert "10"[..1] == "1"; }
    assert DecimalValue("100") == 100 by { assert "100"[..2] == "10"; }
    assert "1000"[..3] == "100";
  }

  /** The price texts of the examples below. */
  lemma ThousandReadsAsThousand()
    ensures ConvertPriceToInt("1 000 р.") == Some(1000)
    ensures ConvertPriceToInt("1 000 р") == Some(1000)
  {
    ThousandDigits();
    HornerIsPlaceValue("1000");
    assert Digits("1 000 р.") == "1000";
    assert Digits("1 000 р") == "1000";
  }

  lemma ExampleKeys()
    ensures ItemKey(Product("Bath A", "1 000 р")) == Some(Key("Bath A", 1000))
    ensures ItemKey(Product("Bath B", "N/A")) == None
    ensures ItemKey(Product("Bath A", "1 000 р.")) == Some(Key("Bath A", 1000))
  {
    ThousandReadsAsThousand();
    assert ConvertPriceToInt("N/A") == None;
  }

  /** The smallest input showing the difference: one bath with a price, on an
      empty table. As written the pass stops at it; as intended it is stored
      with id 1. */
  lemma LookupNotAwaitedLosesFirstInsert()
    ensures PassAsWritten([], [Product("Bath A", "1 000 р.")]) == PassResult([], Stopped(0, LookupNotAwaited))
    ensures Pass([], [Product("Bath A", "1 000 р.")]) == PassResult([PriceRow(1, "Bath A", 1000)], Completed)
  {
    OneBathAsWritten([Product("Bath A", "1 000 р.")]);
    OneBathAwaited([Product("Bath A", "1 000 р.")]);
  }

  lemma OneBathAsWritten(items: seq<Product>)
    requires items == [Product("Bath A", "1 000 р.")]
    ensures PassAsWritten([], items) == PassResult([], Stopped(0, LookupNotAwaited))
  {
    ThousandReadsAsThousand();
    assert ItemKey(items[0]).Some?;
    assert items[..0] == [];
  }

  lemma OneBathAwaited(items: seq<Product>)
    requires items == [Product("Bath A", "1 000 р.")]
    ensures Pass([], items) == PassResult([PriceRow(1, "Bath A", 1000)], Completed)
  {
    ThousandReadsAsThousand();
    assert items[..0] == [];
    assert items[..1] == items;
    assert LookupRow([], Key("Bath A", 1000)) == NoRow;
    assert NextId([]) == 1;
    PassNextItem([], items, 0, []);
  }

  /** Two baths with prices around one without: the pass stores the first,
      stops at "N/A", and never reaches the third. */
  lemma PriceNotNumericStopsThePass()
    ensures Pass([], [Product("Bath A", "1 000 р"), Product("Bath B", "N/A"), Product("Bath C", "2 500 р")])
         == PassResult([PriceRow(1, "Bath A", 1000)], Stopped(1, PriceNotNumeric("N/A")))
  {
    var items := [Product("Bath A", "1 000 р"), Product("Bath B", "N/A"), Product("Bath C", "2 500 р")];
    ExampleStopsAtSecond(items);
    RunStopSticks(Step, [], items, 2);
  }

  lemma ExampleStoresFirst(items: seq<Product>)
    requires |items| >= 1 && items[0] == Product("Bath A", "1 000 р")
    ensures Pass([], items[..1]) == PassResult([PriceRow(1, "Bath A", 1000)], Completed)
  {
    ThousandReadsAsThousand();
    assert items[..0] == [];
    PassNextItem([], items, 0, []);
  }

  lemma ExampleStopsAtSecond(items: seq<Product>)
    requires |items| >= 2 && items[0] == Product("Bath A", "1 000 р") && items[1] == Product("Bath B", "N/A")
    ensures Pass([], items[..2]) == PassResult([PriceRow(1, "Bath A", 1000)], Stopped(1, PriceNotNumeric("N/A")))
  {
    ExampleStoresFirst(items);
    assert ConvertPriceToInt("N/A") == None;
    PassNextItem([], items, 1, [PriceRow(1, "Bath A", 1000)]);
  }

  lemma MatchesAppend(rows: seq<PriceRow>, row: PriceRow, k: Key)
    ensures Matches(rows + [row], k) == Matches(rows, k) + (if KeyOf(row) == k then [row] else [])
  {
    assert (rows + [row])[..|rows|] == rows;
  }

  lemma {:induction false} NoDuplicatesMeansAtMostOne(rows: seq<PriceRow>, k: Key)
    requires NoDuplicates(rows)
    ensures |Matches(rows, k)| <= 1
    decreases |rows|
  {
    if rows != [] {
      var n := |rows| - 1;
      assert rows[..n] + [rows[n]] == rows;
      assert NoDuplicates(rows[..n]);
      NoDuplicatesMeansAtMostOne(rows[..n], k);
      MatchesAppend(rows[..n], rows[n], k);
      if KeyOf(rows[n]) == k {
        assert !Stores(rows[..n], k);
      }
    }
  }

  /** In a table without duplicates the lookup never raises. */
  lemma NoDuplicatesLookup(rows: seq<PriceRow>, k: Key)
    requires NoDuplicates(rows)
    ensures !LookupRow(rows, k).ManyRows?
  {
    NoDuplicatesMeansAtMostOne(rows, k);
  }

  lemma AppendFreshKeepsNoDuplicates(rows: seq<PriceRow>, row: PriceRow)
    requires NoDuplicates(rows) && !Stores(rows, KeyOf(row))
    ensures NoDuplicates(rows + [row])
  {
    var all := rows + [row];
    forall i, j | 0 <= i < j < |all| ensures KeyOf(all[i]) != KeyOf(all[j]) {
      if j == |rows| {
        assert all[i] == rows[i];
      } else {
        assert all[i] == rows[i] && all[j] == rows[j];
      }
    }
  }

  /** An iteration that follows the lookup rule inserts only a key the table
      does not hold, with the next id. */
  lemma InsertIsFresh(step: Stepper, keyFor: KeyReader, rows: seq<PriceRow>, item: Product)
    requires FollowsLookup(step, keyFor)
    requires step(rows, item).Inserted?
    ensures keyFor(item).Some? && KeyOf(step(rows, item).row) == keyFor(item).value
    ensures !Stores(rows, keyFor(item).value)
    ensures step(rows, item).row.id == NextId(rows)
  {
    assert LookupRule(keyFor, rows, item, step(rows, item));
  }

  /** A table without duplicate (name, cost) pairs keeps none after a pass,
      even when the same item is scraped twice. */
  lemma {:induction false} PassKeepsNoDuplicates(step: Stepper, keyFor: KeyReader, rows: seq<PriceRow>, items: seq<Product>)
    requires FollowsLookup(step, keyFor)
    requires NoDuplicates(rows)
    ensures NoDuplicates(Run(step, rows, items).rows)
    decreases |items|
  {
    if items != [] {
      var n := |items| - 1;
      var prev := Run(step, rows, items[..n]);
      PassKeepsNoDuplicates(step, keyFor, rows, items[..n]);
      if prev.outcome.Completed? && step(prev.rows, items[n]).Inserted? {
        InsertIsFresh(step, keyFor, prev.rows, items[n]);
        AppendFreshKeepsNoDuplicates(prev.rows, step(prev.rows, items[n]).row);
      }
    }
  }

  /** On a table without duplicates, an iteration that follows the lookup rule
      raises only for an item whose price does not convert. */
  lemma StepFailsOnlyWithoutKey(step: Stepper, keyFor: KeyReader, rows: seq<PriceRow>, item: Product)
    requires FollowsLookup(step, keyFor)
    requires NoDuplicates(rows)
    ensures step(rows, item).StepFailed? <==> keyFor(item).None?
    ensures keyFor(item).None? ==> step(rows, item).error == PriceNotNumeric(item.price)
  {
    assert LookupRule(keyFor, rows, item, step(rows, item));
    if keyFor(item).Some? {
      NoDuplicatesLookup(rows, keyFor(item).value);
    }
  }

  /** When the table has no duplicates, the only way a pass stops early is an
      item whose price does not convert: it stops at the first such item. */
  lemma {:induction false} PassStopsAtFirstBadPrice(step: Stepper, keyFor: KeyReader, rows: seq<PriceRow>, items: seq<Product>)
    requires FollowsLookup(step, keyFor)
    requires NoDuplicates(rows)
    ensures Run(step, rows, items).outcome.Completed? <==> forall i :: 0 <= i < |items| ==> keyFor(items[i]).Some?
    ensures Run(step, rows, items).outcome.Stopped? ==>
      var at := Run(step, rows, items).outcome.at;
      && keyFor(items[at]).None?
      && Run(step, rows, items).outcome.error == PriceNotNumeric(items[at].price)
      && forall i :: 0 <= i < at ==> keyFor(items[i]).Some?
    decreases |items|
  {
    if items != [] {
      var n := |items| - 1;
      var prev := Run(step, rows, items[..n]);
      PassStopsAtFirstBadPrice(step, keyFor, rows, items[..n]);
      assert forall i :: 0 <= i < n ==> items[..n][i] == items[i];
      if prev.outcome.Completed? {
        PassKeepsNoDuplicates(step, keyFor, rows, items[..n]);
        StepFailsOnlyWithoutKey(step, keyFor, prev.rows, items[n]);
      }
    }
  }

  /** The item is in the table, under exactly one row. */
  predicate StoredOnce(keyFor: KeyReader, rows: seq<PriceRow>, item: Product) {
    keyFor(item).Some? && LookupRow(rows, keyFor(item).value).OneRow?
  }

  /** Appending a row under another key keeps an item stored once. */
  lemma StoredOnceKept(keyFor: KeyReader, rows: seq<PriceRow>, row: PriceRow, item: Product)
    requires StoredOnce(keyFor, rows, item)
    requires !Stores(rows, KeyOf(row))
    ensures StoredOnce(keyFor, rows + [row], item)
  {
    MatchesAppend(rows, row, keyFor(item).value);
  }

  /** Appending the first row under an item's key stores the item once. */
  lemma StoredOnceAfterInsert(keyFor: KeyReader, rows: seq<PriceRow>, row: PriceRow, item: Product)
    requires keyFor(item).Some? && KeyOf(row) == keyFor(item).value
    requires !Stores(rows, KeyOf(row))
    ensures StoredOnce(keyFor, rows + [row], item)
  {
    MatchesAppend(rows, row, KeyOf(row));
  }

  /** After a pass that runs to the end, every scraped item is in the table
      under exactly one row. */
  lemma {:induction false} CompletedPassStoresEachItemOnce(step: Stepper, keyFor: KeyReader, rows: seq<PriceRow>, items: seq<Product>)
    requires FollowsLookup(step, keyFor)
    requires Run(step, rows, items).outcome.Completed?
    ensures forall i :: 0 <= i < |items| ==> StoredOnce(keyFor, Run(step, rows, items).rows, items[i])
    decreases |items|
  {
    if items != [] {
      var front := items[..|items| - 1];
      RunLastStep(step, rows, items);
      CompletedPassStoresEachItemOnce(step, keyFor, rows, front);
      StoredOnceAfterStep(step, keyFor, Run(step, rows, front).rows, items, front);
    }
  }

  /** A completed pass over one or more items is a completed pass over all
      but the last, followed by an iteration on the last that does not raise. */
  lemma RunLastStep(step: Stepper, rows: seq<PriceRow>, items: seq<Product>)
    requires items != [] && Run(step, rows, items).outcome.Completed?
    ensures var prev := Run(step, rows, items[..|items| - 1]);
      var s := step(prev.rows, items[|items| - 1]);
      && prev.outcome.Completed?
      && !s.StepFailed?
      && Run(step, rows, items).rows == if s.Inserted? then prev.rows + [s.row] else prev.rows
  {
  }

  /** One more item that does not raise keeps every earlier item stored once,
      and stores the new one once. */
  lemma StoredOnceAfterStep(step: Stepper, keyFor: KeyReader, rows: seq<PriceRow>, items: seq<Product>, front: seq<Product>)
    requires FollowsLookup(step, keyFor)
    requires items != [] && front == items[..|items| - 1]
    requires forall i :: 0 <= i < |front| ==> StoredOnce(keyFor, rows, front[i])
    requires !step(rows, items[|items| - 1]).StepFailed?
    ensures var s := step(rows, items[|items| - 1]);
      var after := if s.Inserted? then rows + [s.row] else rows;
      forall i :: 0 <= i < |items| ==> StoredOnce(keyFor, after, items[i])
  {
    var item := items[|items| - 1];
    var s := step(rows, item);
    assert LookupRule(keyFor, rows, item, s);
    var after := if s.Inserted? then rows + [s.row] else rows;
    if s.Inserted? {
      InsertIsFresh(step, keyFor, rows, item);
      forall i | 0 <= i < |front| ensures StoredOnce(keyFor, after, front[i]) {
        StoredOnceKept(keyFor, rows, s.row, front[i]);
      }
      StoredOnceAfterInsert(keyFor, rows, s.row, item);
    }
    forall i | 0 <= i < |items| ensures StoredOnce(keyFor, after, items[i]) {
      if i < |front| {
        assert items[i] == front[i];
      }
    }
  }

  lemma {:induction false} PassOverStoredItems(step: Stepper, keyFor: KeyReader, stored: seq<PriceRow>, items: seq<Product>, k: nat)
    requires FollowsLookup(step, keyFor)
    requires k <= |items|
    requires forall i :: 0 <= i < |items| ==> StoredOnce(keyFor, stored, items[i])
    ensures Run(step, stored, items[..k]) == PassResult(stored, Completed)
  {
    if k > 0 {
      PassOverStoredItems(step, keyFor, stored, items, k - 1);
      assert items[..k][..k - 1] == items[..k - 1];
      assert LookupRule(keyFor, stored, items[k - 1], step(stored, items[k - 1]));
    }
  }

  /** A second pass over the same items, on the table the first pass left,
      gives back exactly what the first pass gave: it inserts nothing, and
      it ends the way the first one ended, at the same item if that one
      stopped. */
  lemma SecondPassInsertsNothing(step: Stepper, keyFor: KeyReader, rows: seq<PriceRow>, items: seq<Product>)
    requires FollowsLookup(step, keyFor)
    ensures var first := Run(step, rows, items); Run(step, first.rows, items) == first
  {
    var first := Run(step, rows, items);
    if first.outcome.Completed? {
      CompletedPassStoresEachItemOnce(step, keyFor, rows, items);
      PassOverStoredItems(step, keyFor, first.rows, items, |items|);
      assert items[..|items|] == items;
    } else {
      var at := first.outcome.at;
      RunStopped(step, rows, items);
      var before := items[..at];
      CompletedPassStoresEachItemOnce(step, keyFor, rows, before);
      PassOverStoredItems(step, keyFor, first.rows, before, at);
      assert before[..at] == before;
      var upTo := items[..at + 1];
      assert upTo[..at] == before && upTo[at] == items[at];
      assert Run(step, first.rows, upTo) == first;
      RunStopSticks(step, first.rows, items, at + 1);
    }
  }

  /** Every item the pass has got past is in the table afterwards. */
  lemma ProcessedItemIsStored(step: Stepper, keyFor: KeyReader, rows: seq<PriceRow>, items: seq<Product>, i: nat)
    requires FollowsLookup(step, keyFor)
    requires i < |items|
    requires Run(step, rows, items).outcome.Completed? || i < Run(step, rows, items).outcome.at
    ensures keyFor(items[i]).Some? && Stores(Run(step, rows, items).rows, keyFor(items[i]).value)
  {
    var r := Run(step, rows, items);
    if r.outcome.Completed? {
      CompletedPassStoresEachItemOnce(step, keyFor, rows, items);
      assert StoredOnce(keyFor, r.rows, items[i]);
    } else {
      RunStopped(step, rows, items);
      var at := r.outcome.at;
      CompletedPassStoresEachItemOnce(step, keyFor, rows, items[..at]);
      assert items[..at][i] == items[i];
      assert StoredOnce(keyFor, r.rows, items[i]);
    }
  }

  /** The keys of the items whose price converts, in item order. */
  function PricedKeys(keyFor: KeyReader, items: seq<Product>): (ks: seq<Key>)
    ensures forall k :: k in ks <==> exists i :: 0 <= i < |items| && keyFor(items[i]) == Some(k)
  {
    if items == [] then []
    else
      var n := |items| - 1;
      var front := PricedKeys(keyFor, items[..n]);
      assert forall i :: 0 <= i < n ==> items[..n][i] == items[i];
      match keyFor(items[n])
      case None => front
      case Some(k) => front + [k]
  }

  /** The reference order of insertion: each key that the table does not hold,
      at its first appearance among the scraped keys. */
  function NewKeys(stored: seq<PriceRow>, keys: seq<Key>): (ks: seq<Key>)
    ensures forall k :: k in ks <==> k in keys && !Stores(stored, k)
  {
    if keys == [] then []
    else
      var n := |keys| - 1;
      var front := NewKeys(stored, keys[..n]);
      assert keys[..n] + [keys[n]] == keys;
      if Stores(stored, keys[n]) || keys[n] in keys[..n] then front else front + [keys[n]]
  }

  lemma NewKeysSnoc(stored: seq<PriceRow>, keys: seq<Key>, k: Key)
    ensures NewKeys(stored, keys + [k]) ==
      if Stores(stored, k) || k in keys then NewKeys(stored, keys) else NewKeys(stored, keys) + [k]
  {
    assert (keys + [k])[..|keys|] == keys;
  }

  lemma KeysOfSnoc(rows: seq<PriceRow>, row: PriceRow)
    ensures KeysOf(rows + [row]) == KeysOf(rows) + [KeyOf(row)]
  {
    assert (rows + [row])[..|rows|] == rows;
  }

  lemma StoresSplit(rows: seq<PriceRow>, extra: seq<PriceRow>, k: Key)
    ensures Stores(rows + extra, k) <==> Stores(rows, k) || k in KeysOf(extra)
  {
    var all := rows + extra;
    if Stores(all, k) {
      var i :| 0 <= i < |all| && KeyOf(all[i]) == k;
      if i >= |rows| {
        assert KeysOf(extra)[i - |rows|] == k;
      } else {
        assert all[i] == rows[i];
      }
    }
    if k in KeysOf(extra) {
      var j :| 0 <= j < |extra| && KeysOf(extra)[j] == k;
      assert all[|rows| + j] == extra[j];
    }
    if Stores(rows, k) {
      var i :| 0 <= i < |rows| && KeyOf(rows[i]) == k;
      assert all[i] == rows[i];
    }
  }

  /** One more item whose iteration does not raise, after a prefix that
      appended the new keys of its scraped keys. */
  lemma NewKeyStep(keyFor: KeyReader, rows: seq<PriceRow>, added: seq<PriceRow>, keys: seq<Key>, item: Product, s: StepResult)
    requires KeysOf(added) == NewKeys(rows, keys)
    requires LookupRule(keyFor, rows + added, item, s) && !s.StepFailed?
    ensures keyFor(item).Some?
    ensures s.Inserted? ==> KeysOf(added + [s.row]) == NewKeys(rows, keys + [keyFor(item).value])
    ensures s.AlreadyStored? ==> KeysOf(added) == NewKeys(rows, keys + [keyFor(item).value])
  {
    var k := keyFor(item).value;
    NewKeysSnoc(rows, keys, k);
    StoresSplit(rows, added, k);
    if s.Inserted? {
      KeysOfSnoc(added, s.row);
    }
  }

  /** A pass that runs to the end appends, in item order, one row per key that
      the table did not hold, at the key's first appearance. */
  lemma {:induction false} PassAppendsNewKeysInOrder(step: Stepper, keyFor: KeyReader, rows: seq<PriceRow>, items: seq<Product>)
    requires FollowsLookup(step, keyFor)
    requires Run(step, rows, items).outcome.Completed?
    ensures KeysOf(Run(step, rows, items).rows[|rows|..]) == NewKeys(rows, PricedKeys(keyFor, items))
    decreases |items|
  {
    if items != [] {
      var n := |items| - 1;
      var prev := Run(step, rows, items[..n]);
      PassAppendsNewKeysInOrder(step, keyFor, rows, items[..n]);
      RunAppendsOnly(step, rows, items[..n]);
      var added := prev.rows[|rows|..];
      assert prev.rows == rows + added;
      var s := step(prev.rows, items[n]);
      assert LookupRule(keyFor, prev.rows, items[n], s);
      NewKeyStep(keyFor, rows, added, PricedKeys(keyFor, items[..n]), items[n], s);
      if s.Inserted? {
        assert (prev.rows + [s.row])[|rows|..] == added + [s.row];
      }
    }
  }

  /** After a row is inserted with the next id, the next id is one more. */
  lemma NextIdAfterInsert(rows: seq<PriceRow>, row: PriceRow)
    requires row.id == NextId(rows)
    ensures NextId(rows + [row]) == row.id + 1
  {
    var all := rows + [row];
    assert all[|rows|] == row;
    assert forall i :: 0 <= i < |rows| ==> all[i] == rows[i];
  }

  /** The rows a pass appends carry consecutive ids, starting at the id the
      table would give next. */
  lemma {:induction false} AppendedIdsAreConsecutive(step: Stepper, keyFor: KeyReader, rows: seq<PriceRow>, items: seq<Product>)
    requires FollowsLookup(step, keyFor)
    ensures var all := Run(step, rows, items).rows;
      && (forall j :: |rows| <= j < |all| ==> all[j].id == NextId(rows) + (j - |rows|))
      && NextId(all) == NextId(rows) + (|all| - |rows|)
    decreases |items|
  {
    if items != [] {
      var n := |items| - 1;
      var prev := Run(step, rows, items[..n]);
      AppendedIdsAreConsecutive(step, keyFor, rows, items[..n]);
      if prev.outcome.Completed? && step(prev.rows, items[n]).Inserted? {
        var row := step(prev.rows, items[n]).row;
        InsertIsFresh(step, keyFor, prev.rows, items[n]);
        NextIdAfterInsert(prev.rows, row);
        var all := prev.rows + [row];
        assert forall j :: |rows| <= j < |prev.rows| ==> all[j] == prev.rows[j];
      }
    }
  }

  /** One more item, after a prefix that ran to the end: the loop's step,
      read off the converted price and the lookup. */
  lemma PassNextItem(rows: seq<PriceRow>, items: seq<Product>, i: nat, current: seq<PriceRow>)
    requires i < |items|
    requires Run(Step, rows, items[..i]) == PassResult(current, Completed)
    ensures var item := items[i];
      var price := ConvertPriceToInt(item.price);
      Run(Step, rows, items[..i + 1]) ==
        if price.None? then PassResult(current, Stopped(i, PriceNotNumeric(item.price)))
        else
          match LookupRow(current, Key(item.name, price.value))
          case NoRow => PassResult(current + [PriceRow(NextId(current), item.name, price.value)], Completed)
          case OneRow(_) => PassResult(current, Completed)
          case ManyRows => PassResult(current, Stopped(i, MultipleRows(Key(item.name, price.value))))
  {
    assert items[..i + 1][..i] == items[..i];
  }

  /** A round of `background_parser_async`: scrape the baths category, then
      run the pass over what was scraped. A scrape that raises (`Aborted`), or
      is still running when the page budget runs out (`OutOfPages`), never
      reaches the pass, and the table stays as it was. */
  datatype RoundOutcome = ScrapeFailed(walk: WalkOutcome) | Reconciled(pass: PassOutcome)

  function Round(site: map<Url, Page>, maxPages: nat, rows: seq<PriceRow>): (r: (seq<PriceRow>, RoundOutcome))
    ensures rows <= r.0
    ensures r.1.ScrapeFailed? <==> !CategoryWalk(site, ShopBaseUrl, BathsCategoryUrl, maxPages).outcome.Finished?
    ensures r.1.ScrapeFailed? ==> r.0 == rows
    ensures var w := CategoryWalk(site, ShopBaseUrl, BathsCategoryUrl, maxPages).outcome;
      w.Finished? ==> r == (Pass(rows, w.products).rows, Reconciled(Pass(rows, w.products).outcome))
  {
    match CategoryWalk(site, ShopBaseUrl, BathsCategoryUrl, maxPages).outcome
    case Finished(products) =>
      RunAppendsOnly(Step, rows, products);
      var p := Pass(rows, products);
      (p.rows, Reconciled(p.outcome))
    case other => (rows, ScrapeFailed(other))
  }

  /** The `Prices` table, updated in place by the pass. */
  class PriceTable {
    var rows: seq<PriceRow>

    constructor (initial: seq<PriceRow>)
      ensures rows == initial
    {
      rows := initial;
    }

    /** `session.add`, `commit` and `refresh`: the row gets the next id. */
    method Add(name: string, cost: int) returns (row: PriceRow)
      modifies this
      ensures row == PriceRow(NextId(old(rows)), name, cost)
      ensures rows == old(rows) + [row]
    {
      row := PriceRow(NextId(rows), name, cost);
      rows := rows + [row];
    }

    /** The `for item in data` loop, with the lookup awaited. */
    method ReconcilePass(items: seq<Product>) returns (outcome: PassOutcome)
      modifies this
      ensures Pass(old(rows), items) == PassResult(rows, outcome)
    {
      var i := 0;
      while i < |items|
        invariant 0 <= i <= |items|
        invariant Run(Step, old(rows), items[..i]) == PassResult(rows, Completed)
      {
        var item := items[i];
        PassNextItem(old(rows), items, i, rows);
        var price := ConvertPriceToInt(item.price);
        if price.None? {
          outcome := Stopped(i, PriceNotNumeric(item.price));
          RunStopSticks(Step, old(rows), items, i + 1);
          return;
        }
        var k := Key(item.name, price.value);
        var existing := LookupRow(rows, k);
        if existing.ManyRows? {
          outcome := Stopped(i, MultipleRows(k));
          RunStopSticks(Step, old(rows), items, i + 1);
          return;
        }
        if existing.NoRow? {
          var _ := Add(item.name, price.value);
        }
        i := i + 1;
      }
      assert items[..i] == items;
      outcome := Completed;
    }

    /** One round: scrape the baths category, then reconcile. */
    method RunRound(site: map<Url, Page>, maxPages: nat) returns (outcome: RoundOutcome)
      modifies this
      ensures (rows, outcome) == Round(site, maxPages, old(rows))
    {
      var walk := GetPrice(site, maxPages);
      if !walk.Finished? {
        return ScrapeFailed(walk);
      }
      var pass := ReconcilePass(walk.products);
      outcome := Reconciled(pass);
    }
  }
}
