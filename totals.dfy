/**
 * Line items and the totals block of an estimate: subtotal, markup,
 * installation, misc charge and grand total, with the tolerant
 * "empty or unparsable means zero" reading of the adjustment entries.
 */
module Totals {
  import opened Wrappers
  import opened Sequences
  import opened Numerals

  /** One line of an estimate, as the frame's dictionaries hold it. */
  datatype LineItem = LineItem(name: string, category: string, qty: int, unitPrice: real, total: real)

  /** The category given to free-form lines and to loaded lines whose category is NULL. */
  const WriteInCategory: string := "Write-in"

  /** `qty * unit_price`: an integer quantity times a unit price. */
  function LineTotal(qty: int, unitPrice: real): real {
    qty as real * unitPrice
  }

  /** A line whose total is its quantity times its unit price. */
  predicate Priced(item: LineItem) {
    item.total == LineTotal(item.qty, item.unitPrice)
  }

  /**
   * The content of a text entry: text the user typed, or a number the program
   * wrote into it (when an estimate is loaded).
   */
  datatype Entry = Typed(text: string) | Shown(value: real)

  const Blank: Entry := Typed("")

  /** `float(entry.get() or 0)`, with a ValueError read as 0. */
  function OrZero(e: Entry): (r: real)
    ensures e.Shown? ==> r == e.value
    ensures e.Typed? && ParseFloat(e.text).None? ==> r == 0.0
    ensures e.Typed? && ParseFloat(e.text).Some? ==> r == ParseFloat(e.text).value
  {
    match e
    case Shown(v) => v
    case Typed(s) => if s == "" then 0.0 else ParseFloat(s).GetOr(0.0)
  }

  /** `sum(item['total'] for item in line_items)`. */
  function Subtotal(items: seq<LineItem>): real {
    if items == [] then 0.0 else items[0].total + Subtotal(items[1..])
  }

  datatype Breakdown = Breakdown(subtotal: real, markupAmount: real, installTotal: real, miscCharge: real, grandTotal: real)

  /** The installation charge: quantity times price per unit. */
  function InstallCharge(qty: real, price: real): real {
    qty * price
  }

  /** The markup on a subtotal at a percentage. */
  function MarkupAmount(subtotal: real, percent: real): real {
    subtotal * (percent / 100.0)
  }

  /**
   * The totals block. The markup percentage applies to the line-item subtotal
   * only; installation is quantity times unit price; every adjustment entry
   * that is empty or not a number counts as zero.
   */
  function ComputeTotals(items: seq<LineItem>, markup: Entry, installQty: Entry, installCost: Entry, misc: Entry): (b: Breakdown)
    ensures b.subtotal == Subtotal(items)
    ensures b.grandTotal == Subtotal(items) + MarkupAmount(Subtotal(items), OrZero(markup))
                            + InstallCharge(OrZero(installQty), OrZero(installCost)) + OrZero(misc)
    ensures b.grandTotal == b.subtotal + b.markupAmount + b.installTotal + b.miscCharge
    ensures OrZero(markup) == 0.0 ==> b.markupAmount == 0.0
    ensures OrZero(installQty) == 0.0 || OrZero(installCost) == 0.0 ==> b.installTotal == 0.0
  {
    var subtotal := Subtotal(items);
    var markupAmount := MarkupAmount(subtotal, OrZero(markup));
    var installTotal := InstallCharge(OrZero(installQty), OrZero(installCost));
    var miscCharge := OrZero(misc);
    Breakdown(subtotal, markupAmount, installTotal, miscCharge, subtotal + markupAmount + installTotal + miscCharge)
  }

  /** The subtotal of a concatenation is the sum of the subtotals. */
  lemma {:induction false} SubtotalConcat(a: seq<LineItem>, b: seq<LineItem>)
    ensures Subtotal(a + b) == Subtotal(a) + Subtotal(b)
  {
    if a == [] {
      assert a + b == b;
    } else {
      assert (a + b)[1..] == a[1..] + b;
      SubtotalConcat(a[1..], b);
    }
  }

  /** Appending a line adds exactly that line's total. */
  lemma SubtotalAppend(a: seq<LineItem>, x: LineItem)
    ensures Subtotal(a + [x]) == Subtotal(a) + x.total
  {
    SubtotalConcat(a, [x]);
  }

  /** Replacing line i changes the subtotal by the difference of the two totals. */
  lemma SubtotalReplace(a: seq<LineItem>, i: nat, x: LineItem)
    requires i < |a|
    ensures Subtotal(a[i := x]) == Subtotal(a) - a[i].total + x.total
  {
    var before, after := a[..i], a[i + 1..];
    assert a == before + ([a[i]] + after);
    assert a[i := x] == before + ([x] + after);
    assert ([a[i]] + after)[1..] == after && ([x] + after)[1..] == after;
    SubtotalConcat(before, [a[i]] + after);
    SubtotalConcat(before, [x] + after);
  }

  /** Removing line i takes exactly that line's total off. */
  lemma SubtotalRemove(a: seq<LineItem>, i: nat)
    requires i < |a|
    ensures Subtotal(a[..i] + a[i + 1..]) == Subtotal(a) - a[i].total
  {
    var before, after := a[..i], a[i + 1..];
    assert a == before + ([a[i]] + after);
    assert ([a[i]] + after)[1..] == after;
    SubtotalConcat(before, [a[i]] + after);
    SubtotalConcat(before, after);
  }

  /** Reordering the lines never changes the subtotal. */
  lemma {:induction false} SubtotalPermutation(a: seq<LineItem>, b: seq<LineItem>)
    requires multiset(a) == multiset(b)
    ensures Subtotal(a) == Subtotal(b)
  {
    if a == [] {
      assert |b| == |multiset(b)| == 0;
    } else {
      var x := a[0];
      assert x in multiset(b);
      var i :| 0 <= i < |b| && b[i] == x;
      var rest := b[..i] + b[i + 1..];
      RemoveAtMultiset(b, i);
      TailMultiset(a);
      SubtotalPermutation(a[1..], rest);
      SubtotalRemove(b, i);
    }
  }

  /**
   * Adding a line raises the grand total by that line's total with the
   * markup applied to it, and by nothing else.
   */
  lemma GrandTotalAppend(a: seq<LineItem>, x: LineItem, markup: Entry, installQty: Entry, installCost: Entry, misc: Entry)
    ensures ComputeTotals(a + [x], markup, installQty, installCost, misc).grandTotal
            == ComputeTotals(a, markup, installQty, installCost, misc).grandTotal + x.total + MarkupAmount(x.total, OrZero(markup))
  {
    var p := OrZero(markup);
    var install := InstallCharge(OrZero(installQty), OrZero(installCost));
    GrandTotalSum(a, markup, installQty, installCost, misc);
    GrandTotalSum(a + [x], markup, installQty, installCost, misc);
    SubtotalAppend(a, x);
    MarkupDistributes(Subtotal(a), x.total, p);
  }

  /** The grand total as the sum of its four parts. */
  lemma GrandTotalSum(a: seq<LineItem>, markup: Entry, installQty: Entry, installCost: Entry, misc: Entry)
    ensures ComputeTotals(a, markup, installQty, installCost, misc).grandTotal
            == Subtotal(a) + MarkupAmount(Subtotal(a), OrZero(markup)) + InstallCharge(OrZero(installQty), OrZero(installCost)) + OrZero(misc)
  {
  }

  /** The markup of a sum is the sum of the markups. */
  lemma MarkupDistributes(s: real, t: real, percent: real)
    ensures MarkupAmount(s + t, percent) == MarkupAmount(s, percent) + MarkupAmount(t, percent)
  {
  }

  /** The worked example: 2 x $50 and 1 x $30, 10% markup, 1 x $100 install, $25 misc. */
  lemma WorkedExample()
    ensures ComputeTotals([LineItem("Door", "Hardware", 2, 50.0, 100.0), LineItem("Hinge", "Hardware", 1, 30.0, 30.0)],
                          Shown(10.0), Shown(1.0), Shown(100.0), Shown(25.0))
            == Breakdown(130.0, 13.0, 100.0, 25.0, 268.0)
  {
    var items := [LineItem("Door", "Hardware", 2, 50.0, 100.0), LineItem("Hinge", "Hardware", 1, 30.0, 30.0)];
    assert Subtotal(items[1..]) == 30.0;
  }
}
