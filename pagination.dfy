/**
 * Pagination of a listing: page `number` (counted from 1) of an ordered list
 * holds the next `perPage` rows after the earlier pages. Only page numbers
 * that name an existing page are modelled; the first page always exists, even
 * for an empty list.
 */
module Pagination {

  function Min(a: int, b: int): int { if a <= b then a else b }

  /** A page number the list actually has. */
  predicate ValidPage(total: nat, number: nat, perPage: nat) {
    number == 1 || (1 < number && (number - 1) * perPage < total)
  }

  /** The rows shown on page `number`. */
  function Page<T>(items: seq<T>, number: nat, perPage: nat): (r: seq<T>)
    requires perPage > 0 && ValidPage(|items|, number, perPage)
    ensures |r| == Min(perPage, |items| - (number - 1) * perPage)
    ensures forall i :: 0 <= i < |r| ==> r[i] == items[(number - 1) * perPage + i]
  {
    var start := (number - 1) * perPage;
    items[start..Min(start + perPage, |items|)]
  }

  /** The list cut into consecutive pages of `perPage` rows, the last one possibly shorter. */
  function Pages<T>(items: seq<T>, perPage: nat): (r: seq<seq<T>>)
    requires perPage > 0
    ensures |r| >= 1
    ensures forall k :: 0 <= k < |r| - 1 ==> |r[k]| == perPage
    ensures |r[|r| - 1]| <= perPage
    ensures items != [] ==> |r[|r| - 1]| > 0
    decreases |items|
  {
    if |items| <= perPage then [items]
    else [items[..perPage]] + Pages(items[perPage..], perPage)
  }

  function Flatten<T>(pages: seq<seq<T>>): seq<T> {
    if pages == [] then [] else pages[0] + Flatten(pages[1..])
  }

  /** Reading every page in turn gives back the whole list: nothing lost, nothing repeated. */
  lemma {:induction false} PagesCoverList<T>(items: seq<T>, perPage: nat)
    requires perPage > 0
    ensures Flatten(Pages(items, perPage)) == items
  {
    if |items| > perPage {
      PagesCoverList(items[perPage..], perPage);
      assert items[..perPage] + items[perPage..] == items;
    }
  }

  lemma MulStep(n: nat, perPage: nat)
    ensures (n + 1) * perPage == perPage + n * perPage
  {
  }

  /** A page past the first is the previous page of the list without its first page. */
  lemma PageShift<T>(items: seq<T>, number: nat, perPage: nat)
    requires perPage > 0 && number > 1 && ValidPage(|items|, number, perPage)
    ensures |items| > perPage
    ensures ValidPage(|items| - perPage, number - 1, perPage)
    ensures Page(items, number, perPage) == Page(items[perPage..], number - 1, perPage)
  {
    var b := (number - 2) * perPage;
    MulStep(number - 2, perPage);
    assert (number - 1) * perPage == perPage + b;
    var r, t := Page(items, number, perPage), Page(items[perPage..], number - 1, perPage);
    forall i | 0 <= i < |r| ensures r[i] == t[i] {
      assert items[perPage..][b + i] == items[perPage + b + i];
    }
  }

  /** Page `number` is the `number`-th piece of the cut (`PiecesAreValidPages` is the converse). */
  lemma {:induction false} PageIsPiece<T>(items: seq<T>, number: nat, perPage: nat)
    requires perPage > 0 && ValidPage(|items|, number, perPage)
    ensures number - 1 < |Pages(items, perPage)|
    ensures Page(items, number, perPage) == Pages(items, perPage)[number - 1]
    decreases number
  {
    if number > 1 {
      PageShift(items, number, perPage);
      PageIsPiece(items[perPage..], number - 1, perPage);
    }
  }

  /** Every piece of the cut is a valid page number's page: there are no extra pieces. */
  lemma {:induction false} PiecesAreValidPages<T>(items: seq<T>, perPage: nat, i: nat)
    requires perPage > 0 && i < |Pages(items, perPage)|
    ensures ValidPage(|items|, i + 1, perPage)
    decreases i
  {
    if i > 0 {
      PiecesAreValidPages(items[perPage..], perPage, i - 1);
      MulStep(i - 1, perPage);
    }
  }

  /** With more rows than one page and at most two pages' worth, page 2 holds the remainder. */
  lemma SecondPageHoldsRest<T>(items: seq<T>, perPage: nat)
    requires 0 < perPage < |items| <= 2 * perPage
    ensures |Page(items, 1, perPage)| == perPage
    ensures ValidPage(|items|, 2, perPage)
    ensures |Page(items, 2, perPage)| == |items| - perPage
    ensures |Pages(items, perPage)| == 2
  {
    assert Pages(items[perPage..], perPage) == [items[perPage..]];
  }
}
