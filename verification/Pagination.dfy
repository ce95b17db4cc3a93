/** Pages of an ordered result: the arithmetic of page numbers, and that the pages tile the
    result. */
module Pagination {
  function ClampPerPage(n: int): (r: nat)
    ensures 1 <= r <= 100
  {
    if n < 1 then 10 else if n > 100 then 100 else n
  }

  function LastPage(total: nat, perPage: nat): nat
    requires perPage > 0
  {
    (total + perPage - 1) / perPage
  }

  /** LIMIT and OFFSET on an ordered result. */
  function Window<R>(rows: seq<R>, offset: nat, limit: nat): seq<R> {
    if offset >= |rows| then []
    else if offset + limit >= |rows| then rows[offset..]
    else rows[offset..offset + limit]
  }

  function PageOffset(page: int, perPage: nat): (r: nat)
    requires page >= 1
  {
    OffsetIsNatural(page, perPage);
    (page - 1) * perPage
  }

  lemma PageIsWindow<R>(rows: seq<R>, page: int, perPage: nat)
    requires page >= 1 && perPage >= 1
    ensures PageRows(rows, page, perPage) == Window(rows, PageOffset(page, perPage), perPage)
  {
  }

  function PageRows<R>(rows: seq<R>, page: int, perPage: nat): seq<R>
    requires page >= 1 && perPage >= 1
  {
    OffsetIsNatural(page, perPage);
    Window(rows, (page - 1) * perPage, perPage)
  }

  lemma OffsetIsNatural(page: int, perPage: nat)
    requires page >= 1
    ensures (page - 1) * perPage >= 0
  {
  }

  lemma EmptyPage<R>(rows: seq<R>, page: int, perPage: nat)
    requires rows == [] && page >= 1 && perPage >= 1
    ensures PageRows(rows, page, perPage) == []
  {
  }

  /** Pages 1 to `n` laid end to end. */
  function PagesUpTo<R>(rows: seq<R>, n: nat, perPage: nat): seq<R>
    requires perPage >= 1
  {
    if n == 0 then [] else PagesUpTo(rows, n - 1, perPage) + PageRows(rows, n, perPage)
  }

  lemma {:induction false} PagesArePrefix<R>(rows: seq<R>, n: nat, perPage: nat)
    requires perPage >= 1
    ensures PagesUpTo(rows, n, perPage) == if n * perPage >= |rows| then rows else rows[..n * perPage]
  {
    if n == 0 {
    } else {
      PagesArePrefix(rows, n - 1, perPage);
      var o := (n - 1) * perPage;
      assert n * perPage == o + perPage;
      OffsetIsNatural(n, perPage);
      if o < |rows| {
        assert rows[..o] + rows[o..] == rows;
        if o + perPage < |rows| {
          assert rows[..o] + rows[o..o + perPage] == rows[..o + perPage];
        }
      }
    }
  }

  /** The pages up to the last one are the whole result, each row once; every page holds at most
      `perPage` rows, every page before the last is full, and pages after the last are empty. */
  lemma PagesCoverResult<R>(rows: seq<R>, perPage: nat, page: nat)
    requires perPage >= 1 && page >= 1
    ensures PagesUpTo(rows, LastPage(|rows|, perPage), perPage) == rows
    ensures |PageRows(rows, page, perPage)| <= perPage
    ensures page < LastPage(|rows|, perPage) ==> |PageRows(rows, page, perPage)| == perPage
    ensures page == LastPage(|rows|, perPage) ==> PageRows(rows, page, perPage) != []
    ensures page > LastPage(|rows|, perPage) ==> PageRows(rows, page, perPage) == []
  {
    var last := LastPage(|rows|, perPage);
    CeilingBounds(|rows|, perPage);
    PagesArePrefix(rows, last, perPage);
    OffsetIsNatural(page, perPage);
    if page < last {
      Monotone(page, last - 1, perPage);
      assert (page - 1) * perPage + perPage == page * perPage;
    } else if page > last {
      Monotone(last, page - 1, perPage);
    }
  }

  lemma CeilingBounds(total: nat, size: nat)
    requires size >= 1
    ensures LastPage(total, size) * size >= total
    ensures total > 0 ==> LastPage(total, size) >= 1 && (LastPage(total, size) - 1) * size < total
    ensures total == 0 ==> LastPage(total, size) == 0
  {
    var n := total + size - 1;
    var q := n / size;
    assert n == q * size + n % size;
    assert (q - 1) * size == q * size - size;
    if total > 0 && q < 1 {
      assert false;
    }
    if total == 0 && q > 0 {
      Monotone(1, q, size);
      assert false;
    }
  }

  lemma Monotone(a: nat, b: nat, w: nat)
    requires a <= b
    ensures a * w <= b * w
  {
  }
}
