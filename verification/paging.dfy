/**
  Page arithmetic of the list endpoints: page `p` (counted from 1) shows rows
  `(p - 1) * limit` up to but excluding `p * limit`, and the page count is the
  ceiling of `total / limit`.
 */
module Paging {
  import opened Js

  /**
    `parseInt(q) || default`: a missing or non-numeric query (parsed as NaN,
    here `None`) and a zero both fall back to the default.
   */
  function ParsedOr(parsed: Option<int>, default: int): (r: int)
    ensures parsed.Some? && parsed.value != 0 ==> r == parsed.value
    ensures parsed.None? || parsed.value == 0 ==> r == default
  {
    if parsed.Some? && parsed.value != 0 then parsed.value else default
  }

  /** `skip = (page - 1) * limit`. */
  function Skip(page: int, limit: int): int {
    (page - 1) * limit
  }

  /** The user list: `count > 0 ? Math.ceil(count / limit) : 0`. */
  function UserPages(count: nat, limit: int): (r: Option<int>)
    ensures count == 0 ==> r == Some(0)
    ensures count > 0 ==> r == CeilDiv(count, limit)
  {
    if count > 0 then CeilDiv(count, limit) else Some(0)
  }

  /** The user list never divides by zero: its limit falls back to 10 when zero. */
  lemma UserPagesFinite(count: nat, parsedLimit: Option<int>)
    ensures UserPages(count, ParsedOr(parsedLimit, 10)).Some?
  {
  }

  /**
    The class list: `Math.ceil(total / Number(limit))` without a zero guard,
    so a zero limit gives a page count that is not finite.
   */
  function ClassPages(total: nat, limit: int): (r: Option<int>)
    ensures r.None? <==> limit == 0
    ensures limit > 0 ==> r == UserPages(total, limit)
  {
    CeilDiv(total, limit)
  }

  /** `Number(q)` of a list query, with the destructuring default for a missing one. */
  function NumberOr(q: Option<JsNumber>, default: int): (r: JsNumber)
    ensures q.None? ==> r == Finite(default)
    ensures q.Some? ==> r == q.value
  {
    if q.None? then Finite(default) else q.value
  }

  /**
    The database refuses the class list's page query when the page or the
    limit is not a number, or when `skip` comes out negative.
   */
  predicate ClassQueryRefused(page: Option<JsNumber>, limit: Option<JsNumber>) {
    NumberOr(page, 1).NaN? || NumberOr(limit, 10).NaN?
    || Skip(NumberOr(page, 1).n, NumberOr(limit, 10).n) < 0
  }

  /** The pagination block `getAllClasses` answers with. */
  datatype ClassPage = ClassPage(page: int, take: int, skip: int, total: nat, totalPages: Option<int>)

  function ClassPaging(page: Option<JsNumber>, limit: Option<JsNumber>, total: nat): (r: ClassPage)
    requires !ClassQueryRefused(page, limit)
    ensures page.None? ==> r.page == 1
    ensures limit.None? ==> r.take == 10
    ensures page.Some? ==> r.page == page.value.n
    ensures limit.Some? ==> r.take == limit.value.n
    ensures r.skip == Skip(r.page, r.take) && r.skip >= 0
    ensures r.total == total
    ensures r.totalPages == ClassPages(total, r.take)
  {
    var p := NumberOr(page, 1).n;
    var l := NumberOr(limit, 10).n;
    ClassPage(p, l, Skip(p, l), total, ClassPages(total, l))
  }

  /**
    With a positive limit, the class pages hold every matching class exactly
    once, on a page within `1..totalPages`; with a zero limit the page count
    is not finite.
   */
  lemma ClassPagesCoverRows(page: Option<JsNumber>, limit: Option<JsNumber>, total: nat, i: nat)
    requires !ClassQueryRefused(page, limit)
    ensures ClassPaging(page, limit, total).take == 0 <==> ClassPaging(page, limit, total).totalPages.None?
    ensures var r := ClassPaging(page, limit, total);
      r.take > 0 && i < total ==>
        && 1 <= PageOf(i, r.take) <= r.totalPages.value
        && (forall p :: Skip(p, r.take) <= i < Skip(p, r.take) + r.take <==> p == PageOf(i, r.take))
  {
    var r := ClassPaging(page, limit, total);
    if r.take > 0 && i < total {
      EveryRowOnExactlyOnePage(total, r.take, i);
    }
  }

  /** The page that shows row `i`. */
  function PageOf(i: nat, limit: int): int
    requires limit > 0
  {
    i / limit + 1
  }

  /**
    With a positive limit, every row lies on exactly one page, and that page
    is between 1 and the page count: paging neither skips nor repeats a row.
   */
  lemma EveryRowOnExactlyOnePage(count: nat, limit: int, i: nat)
    requires limit > 0 && i < count
    ensures UserPages(count, limit).Some?
    ensures 1 <= PageOf(i, limit) <= UserPages(count, limit).value
    ensures Skip(PageOf(i, limit), limit) <= i < Skip(PageOf(i, limit), limit) + limit
    ensures forall p :: Skip(p, limit) <= i < Skip(p, limit) + limit ==> p == PageOf(i, limit)
  {
    var p := PageOf(i, limit);
    var n := UserPages(count, limit).value;
    assert (n - 1) * limit < count <= n * limit;
    assert (p - 1) * limit <= i by {
      assert (i / limit) * limit <= i;
    }
    assert i < p * limit by {
      assert i == (i / limit) * limit + i % limit;
    }
    if p > n {
      assert p - 1 >= n;
      MulMonotone(n, p - 1, limit);
      assert false;
    }
    forall q | Skip(q, limit) <= i < Skip(q, limit) + limit
      ensures q == p
    {
      if q < p {
        MulMonotone(q, p - 1, limit);
      } else if q > p {
        MulMonotone(p, q - 1, limit);
      }
    }
  }

  lemma MulMonotone(a: int, b: int, c: int)
    requires a <= b && c > 0
    ensures a * c <= b * c
  {
  }
}
