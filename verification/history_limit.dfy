/** The page size of `GET /api/consultas` (`server/index.js`): the `limit` query
    parameter read with `parseInt`, defaulting through `||` and capped with
    `Math.min`, then handed to `SELECT ... LIMIT ?` in `server/db.js`. */
module HistoryLimit {
  import opened Wrappers
  import opened Text

  const DefaultLimit := 50
  const MaxLimit := 100

  /** `parseInt(req.query.limit)`: `None` when the parameter is missing (NaN). */
  function ParsedLimit(q: Option<string>): Option<int> {
    match q
    case None => None
    case Some(s) => ParseInt(s, true)
  }

  /** `Math.min(parseInt(req.query.limit) || 50, 100)` as written: NaN and 0 fall
      back to 50, every other value is only capped from above. */
  function LimitAsWritten(q: Option<string>): (limit: int)
    ensures limit <= MaxLimit
    ensures ParsedLimit(q) == None || ParsedLimit(q) == Some(0) ==> limit == DefaultLimit
    ensures forall n :: ParsedLimit(q) == Some(n) && n != 0 ==> limit == Min(n, MaxLimit)
  {
    var v := match ParsedLimit(q) case None => 0 case Some(n) => n;
    Min(if v != 0 then v else DefaultLimit, MaxLimit)
  }

  function Min(a: int, b: int): (m: int)
    ensures m <= a && m <= b && (m == a || m == b)
  {
    if a < b then a else b
  }

  /** Rows SQLite returns for `LIMIT limit` over a table of `total` rows: a
      negative limit means no limit at all. */
  function RowsReturned(limit: int, total: nat): (n: nat)
    ensures limit < 0 ==> n == total
    ensures limit >= 0 ==> n <= limit && n <= total && (n == limit || n == total)
  {
    if limit < 0 then total else Min(limit, total)
  }

  /** As written, a negative `limit` passes the cap: `?limit=-1` returns the whole
      table, however large. */
  lemma NegativeLimitUnbounded()
    ensures LimitAsWritten(Some("-1")) == -1
    ensures RowsReturned(LimitAsWritten(Some("-1")), 500) == 500
  {
    ParsedMinusOne();
    assert Min(-1, MaxLimit) == -1;
  }

  /** `parseInt("-1")` is -1. */
  lemma ParsedMinusOne()
    ensures ParsedLimit(Some("-1")) == Some(-1)
  {
    MinusOneString();
    ParseIntString(-1, true);
  }

  lemma MinusOneString()
    ensures IntString(-1) == "-1"
  {
    assert DecimalString(1) == "1";
  }

  /** The evidently intended clamp: anything that is not a positive number falls
      back to the default, and the result is then capped. */
  function Limit(q: Option<string>): (limit: int)
    ensures 1 <= limit <= MaxLimit
  {
    match ParsedLimit(q)
    case Some(n) => if n > 0 then Min(n, MaxLimit) else DefaultLimit
    case None => DefaultLimit
  }

  /** No request reads more than 100 rows, and the corrected clamp agrees with the
      code as written on every request the latter already bounds. */
  lemma LimitBoundsRows(q: Option<string>, total: nat)
    ensures RowsReturned(Limit(q), total) <= MaxLimit
    ensures LimitAsWritten(q) >= 0 ==> Limit(q) == LimitAsWritten(q)
    ensures LimitAsWritten(q) < 0 <==> Limit(q) != LimitAsWritten(q)
  {
  }

  /** The default applies to a missing, non-numeric, zero or negative parameter. */
  lemma LimitDefault(q: Option<string>)
    ensures Limit(q) == DefaultLimit <==>
              (ParsedLimit(q).None? || ParsedLimit(q).value <= 0 || ParsedLimit(q).value == DefaultLimit)
  {
  }
}
