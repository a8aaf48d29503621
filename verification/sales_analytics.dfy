/** `getSalesAnalytics` (lib/supabase.ts): total revenue over orders that were
    not returned, the number of delivered orders, and per-date buckets of the
    non-returned orders in order of first appearance, of which the chart shows
    the last thirty. Money is integer cents; the date formatting
    (`new Date(created_at).toLocaleDateString()`) is the parameter `dateKey`. */
module SalesAnalytics {
  import opened Common
  import opened Catalog

  datatype Bucket = Bucket(date: string, revenue: int, count: nat)

  datatype Analytics = Analytics(totalRevenue: int, totalSold: nat, chartData: seq<Bucket>)

  const ChartWindow: nat := 30

  /** `order.total_price || 0` */
  function PriceOf(o: Order): (cents: int)
  {
    o.totalPrice.GetOr(0)
  }

  predicate IsKept(o: Order)
  {
    o.status != Returned
  }

  predicate IsDelivered(o: Order)
  {
    o.status == Delivered
  }

  /** `orders.filter(o => o.status !== 'returned')` */
  function NotReturned(orders: seq<Order>): (kept: seq<Order>)
  {
    Filter(orders, IsKept)
  }

  /** `.reduce((sum, order) => sum + (order.total_price || 0), 0)` */
  function SumPrices(orders: seq<Order>): (sum: int)
  {
    if orders == [] then 0 else SumPrices(orders[..|orders| - 1]) + PriceOf(orders[|orders| - 1])
  }

  lemma {:induction false} SumPricesNonNegative(orders: seq<Order>)
    requires forall i :: 0 <= i < |orders| ==> PriceOf(orders[i]) >= 0
    ensures SumPrices(orders) >= 0
    decreases |orders|
  {
    if orders != [] {
      SumPricesNonNegative(orders[..|orders| - 1]);
    }
  }

  /** Dropping returned orders keeps prices non-negative, so their sum is too. */
  lemma KeptRevenueNonNegative(orders: seq<Order>)
    ensures (forall i :: 0 <= i < |orders| ==> PriceOf(orders[i]) >= 0) ==> SumPrices(NotReturned(orders)) >= 0
  {
    if forall i :: 0 <= i < |orders| ==> PriceOf(orders[i]) >= 0 {
      var kept := NotReturned(orders);
      FilterMembers(orders, IsKept);
      assert forall i :: 0 <= i < |kept| ==> kept[i] in orders;
      SumPricesNonNegative(kept);
    }
  }

  /** Revenue of the orders that were not returned; with no negative price it
      is never negative. */
  function TotalRevenue(orders: seq<Order>): (revenue: int)
    ensures (forall i :: 0 <= i < |orders| ==> PriceOf(orders[i]) >= 0) ==> revenue >= 0
  {
    KeptRevenueNonNegative(orders);
    SumPrices(NotReturned(orders))
  }

  /** `orders.filter(o => o.status === 'delivered').length`: zero exactly when
      no order is delivered. */
  function TotalSold(orders: seq<Order>): (sold: nat)
    ensures sold <= |orders|
    ensures sold == 0 <==> forall i :: 0 <= i < |orders| ==> !IsDelivered(orders[i])
  {
    var delivered := Filter(orders, IsDelivered);
    FilterMembers(orders, IsDelivered);
    assert forall i :: 0 <= i < |orders| && IsDelivered(orders[i]) ==> orders[i] in delivered;
    assert |delivered| > 0 ==> delivered[0] in orders && IsDelivered(delivered[0]);
    |delivered|
  }

  // ---------------------------------------------------------------------------
  // Date buckets.
  // ---------------------------------------------------------------------------

  /** Position of the bucket for `date`, or `|buckets|` when there is none. */
  function IndexOfDate(buckets: seq<Bucket>, date: string): (j: nat)
    ensures j <= |buckets|
    ensures j < |buckets| ==> buckets[j].date == date
    ensures forall k :: 0 <= k < j ==> buckets[k].date != date
  {
    if buckets == [] then 0
    else if buckets[0].date == date then 0
    else 1 + IndexOfDate(buckets[1..], date)
  }

  /** One step of the reduce: a returned order is skipped; otherwise the
      order's date bucket is created on first sight (at the end, since object
      keys keep insertion order) and its revenue and count are increased. */
  function AddOrder(buckets: seq<Bucket>, o: Order, dateKey: string -> string): (r: seq<Bucket>)
    ensures o.status == Returned ==> r == buckets
    ensures |buckets| <= |r| <= |buckets| + 1
  {
    if o.status == Returned then buckets
    else
      var date := dateKey(o.createdAt);
      var j := IndexOfDate(buckets, date);
      if j < |buckets| then buckets[j := Bucket(date, buckets[j].revenue + PriceOf(o), buckets[j].count + 1)]
      else buckets + [Bucket(date, PriceOf(o), 1)]
  }

  /** The date buckets in order of first appearance: never more than orders. */
  function SalesByDate(orders: seq<Order>, dateKey: string -> string): (b: seq<Bucket>)
    ensures |b| <= |orders|
  {
    if orders == [] then []
    else AddOrder(SalesByDate(orders[..|orders| - 1], dateKey), orders[|orders| - 1], dateKey)
  }

  /** `.slice(-n)`; as in JavaScript, `-0` is `0`, so `slice(-0)` is the whole list. */
  function LastN<T>(s: seq<T>, n: nat): (r: seq<T>)
    ensures n == 0 ==> r == s
    ensures n > 0 ==> |r| == if |s| <= n then |s| else n
    ensures s == s[..|s| - |r|] + r
  {
    if n == 0 || |s| <= n then s else s[|s| - n..]
  }

  function GetSalesAnalytics(orders: seq<Order>, dateKey: string -> string): (a: Analytics)
    ensures |a.chartData| <= ChartWindow
    ensures a.totalSold <= |orders|
  {
    Analytics(TotalRevenue(orders), TotalSold(orders), LastN(SalesByDate(orders, dateKey), ChartWindow))
  }

  /** What the orders query produced: an error, or rows that may be null. */
  datatype OrdersQuery = QueryFailed | Rows(rows: Option<seq<Order>>)

  /** `getSalesAnalytics` with its query: an error is rethrown (`None`), and
      null rows count as no orders (`orders || []`). */
  function LoadSalesAnalytics(q: OrdersQuery, dateKey: string -> string): (r: Option<Analytics>)
    ensures r.None? <==> q.QueryFailed?
    ensures q == Rows(None) ==> r == Some(Analytics(0, 0, []))
    ensures q.Rows? && q.rows.Some? ==> r == Some(GetSalesAnalytics(q.rows.value, dateKey))
  {
    match q
    case QueryFailed => None
    case Rows(rows) => Some(GetSalesAnalytics(rows.GetOr([]), dateKey))
  }

  // ---------------------------------------------------------------------------
  // Reference definitions, independent of the bucket fold.
  // ---------------------------------------------------------------------------

  function Dates(buckets: seq<Bucket>): (ds: seq<string>)
    ensures |ds| == |buckets|
    ensures forall j :: 0 <= j < |buckets| ==> ds[j] == buckets[j].date
  {
    seq(|buckets|, j requires 0 <= j < |buckets| => buckets[j].date)
  }

  /** The date keys of the non-returned orders, in order. */
  function KeptDates(orders: seq<Order>, dateKey: string -> string): (dates: seq<string>)
  {
    if orders == [] then []
    else
      var last := orders[|orders| - 1];
      KeptDates(orders[..|orders| - 1], dateKey) + (if IsKept(last) then [dateKey(last.createdAt)] else [])
  }

  /** Each value of `s` once, in the order of its first occurrence. */
  function FirstOccurrences(s: seq<string>): (r: seq<string>)
    ensures forall x :: x in r <==> x in s
    ensures forall i, j :: 0 <= i < j < |r| ==> r[i] != r[j]
  {
    if s == [] then []
    else
      var p := FirstOccurrences(s[..|s| - 1]);
      assert forall x :: x in s <==> x in s[..|s| - 1] || x == s[|s| - 1];
      if s[|s| - 1] in p then p else p + [s[|s| - 1]]
  }

  /** The position of the first occurrence of `x` in `s`. */
  function FirstIndex(s: seq<string>, x: string): (k: nat)
    requires x in s
    ensures k < |s| && s[k] == x
    ensures forall i :: 0 <= i < k ==> s[i] != x
  {
    if s[0] == x then 0 else 1 + FirstIndex(s[1..], x)
  }

  /** Number of non-returned orders whose date key is `date`. */
  function CountOn(orders: seq<Order>, dateKey: string -> string, date: string): (count: nat)
  {
    if orders == [] then 0
    else
      var last := orders[|orders| - 1];
      CountOn(orders[..|orders| - 1], dateKey, date) + (if IsKept(last) && dateKey(last.createdAt) == date then 1 else 0)
  }

  /** Revenue of the non-returned orders whose date key is `date`. */
  function RevenueOn(orders: seq<Order>, dateKey: string -> string, date: string): (revenue: int)
  {
    if orders == [] then 0
    else
      var last := orders[|orders| - 1];
      RevenueOn(orders[..|orders| - 1], dateKey, date) + (if IsKept(last) && dateKey(last.createdAt) == date then PriceOf(last) else 0)
  }

  function SumCounts(buckets: seq<Bucket>): (total: nat)
  {
    if buckets == [] then 0 else SumCounts(buckets[..|buckets| - 1]) + buckets[|buckets| - 1].count
  }

  function SumRevenues(buckets: seq<Bucket>): (total: int)
  {
    if buckets == [] then 0 else SumRevenues(buckets[..|buckets| - 1]) + buckets[|buckets| - 1].revenue
  }

  // ---------------------------------------------------------------------------
  // Totals.
  // ---------------------------------------------------------------------------

  lemma {:induction false} SumPricesConcat(a: seq<Order>, b: seq<Order>)
    ensures SumPrices(a + b) == SumPrices(a) + SumPrices(b)
    decreases |b|
  {
    if b == [] {
      assert a + b == a;
    } else {
      SumPricesConcat(a, b[..|b| - 1]);
      assert (a + b)[..|a + b| - 1] == a + b[..|b| - 1];
    }
  }

  /** Revenue counts every non-returned order's price (a missing price as 0)
      and nothing of a returned order. */
  lemma TotalRevenueStep(orders: seq<Order>, o: Order)
    ensures TotalRevenue(orders + [o]) == TotalRevenue(orders) + (if o.status == Returned then 0 else PriceOf(o))
  {
    var s := orders + [o];
    assert s[..|s| - 1] == orders;
    var kept := NotReturned(orders);
    if o.status != Returned {
      assert NotReturned(s) == kept + [o];
      assert (kept + [o])[..|kept|] == kept;
    } else {
      assert NotReturned(s) == kept;
    }
  }

  /** Each delivered order adds one sale, any other order none. */
  lemma TotalSoldStep(orders: seq<Order>, o: Order)
    ensures TotalSold(orders + [o]) == TotalSold(orders) + (if IsDelivered(o) then 1 else 0)
  {
  }

  /** If every order was returned there is neither revenue nor a sale. */
  lemma AllReturnedGivesZero(orders: seq<Order>, dateKey: string -> string)
    requires forall i :: 0 <= i < |orders| ==> orders[i].status == Returned
    ensures GetSalesAnalytics(orders, dateKey).totalRevenue == 0
    ensures GetSalesAnalytics(orders, dateKey).totalSold == 0
  {
    FilterKeepsNone(orders, IsKept);
    FilterKeepsNone(orders, IsDelivered);
  }

  /** `totalSold` depends only on which orders are delivered: changing the
      status of any other order among pending, confirmed and returned leaves it alone. */
  lemma {:induction false} TotalSoldIgnoresOtherStatuses(a: seq<Order>, b: seq<Order>)
    requires |a| == |b|
    requires forall i :: 0 <= i < |a| ==> (IsDelivered(a[i]) <==> IsDelivered(b[i]))
    ensures TotalSold(a) == TotalSold(b)
    decreases |a|
  {
    if a != [] {
      var n := |a| - 1;
      var a', b' := a[..n], b[..n];
      TotalSoldIgnoresOtherStatuses(a', b');
      assert a == a' + [a[n]];
      assert b == b' + [b[n]];
      FilterSnoc(a', a[n], IsDelivered);
      FilterSnoc(b', b[n], IsDelivered);
    }
  }

  // ---------------------------------------------------------------------------
  // Buckets.
  // ---------------------------------------------------------------------------

  lemma IndexOfDateFinds(buckets: seq<Bucket>, date: string)
    ensures IndexOfDate(buckets, date) < |buckets| <==> date in Dates(buckets)
  {
  }

  /** Returned orders contribute to no bucket: the buckets of all orders are
      those of the non-returned ones. */
  lemma {:induction false} ReturnedOrdersIgnored(orders: seq<Order>, dateKey: string -> string)
    ensures SalesByDate(orders, dateKey) == SalesByDate(NotReturned(orders), dateKey)
    decreases |orders|
  {
    if orders != [] {
      var front := orders[..|orders| - 1];
      var last := orders[|orders| - 1];
      ReturnedOrdersIgnored(front, dateKey);
      var kept := NotReturned(front);
      if IsKept(last) {
        assert NotReturned(orders) == kept + [last];
        assert (kept + [last])[..|kept + [last]| - 1] == kept;
      } else {
        assert NotReturned(orders) == kept;
      }
    }
  }

  /** The bucket dates are the dates of the non-returned orders, each once, in
      the order in which they first occur. */
  lemma {:induction false} BucketDatesAreFirstOccurrences(orders: seq<Order>, dateKey: string -> string)
    ensures Dates(SalesByDate(orders, dateKey)) == FirstOccurrences(KeptDates(orders, dateKey))
    decreases |orders|
  {
    if orders != [] {
      var front := orders[..|orders| - 1];
      var last := orders[|orders| - 1];
      BucketDatesAreFirstOccurrences(front, dateKey);
      var b := SalesByDate(front, dateKey);
      var ks := KeptDates(front, dateKey);
      assert SalesByDate(orders, dateKey) == AddOrder(b, last, dateKey);
      if IsKept(last) {
        var d := dateKey(last.createdAt);
        var ks' := ks + [d];
        assert KeptDates(orders, dateKey) == ks';
        assert ks'[..|ks'| - 1] == ks;
        IndexOfDateFinds(b, d);
        var j := IndexOfDate(b, d);
        if j < |b| {
          assert d in FirstOccurrences(ks);
          assert FirstOccurrences(ks') == FirstOccurrences(ks);
          assert Dates(b[j := Bucket(d, b[j].revenue + PriceOf(last), b[j].count + 1)]) == Dates(b);
        } else {
          assert d !in FirstOccurrences(ks);
          assert FirstOccurrences(ks') == FirstOccurrences(ks) + [d];
          assert Dates(b + [Bucket(d, PriceOf(last), 1)]) == Dates(b) + [d];
        }
      } else {
        assert KeptDates(orders, dateKey) == ks;
      }
    }
  }

  /** No two buckets share a date. */
  lemma BucketDatesDistinct(orders: seq<Order>, dateKey: string -> string)
    ensures var b := SalesByDate(orders, dateKey);
            forall i, j :: 0 <= i < j < |b| ==> b[i].date != b[j].date
  {
  }

  lemma {:induction false} FirstIndexOfPrefix(s: seq<string>, t: seq<string>, x: string)
    requires x in s
    ensures x in s + t && FirstIndex(s + t, x) == FirstIndex(s, x)
  {
    var k := FirstIndex(s, x);
    assert (s + t)[k] == x;
    var k' := FirstIndex(s + t, x);
    assert forall i :: 0 <= i < |s| ==> (s + t)[i] == s[i];
  }

  lemma FirstIndexOfNewLast(front: seq<string>, last: string)
    requires last !in front
    ensures FirstIndex(front + [last], last) == |front|
  {
  }

  /** In the first-occurrence list, an earlier entry first occurs earlier in the input. */
  lemma {:induction false} FirstOccurrencesOrdered(s: seq<string>)
    ensures forall i, j :: 0 <= i < j < |FirstOccurrences(s)| ==>
              FirstIndex(s, FirstOccurrences(s)[i]) < FirstIndex(s, FirstOccurrences(s)[j])
    decreases |s|
  {
    var r := FirstOccurrences(s);
    if s != [] {
      var front := s[..|s| - 1];
      var last := s[|s| - 1];
      assert s == front + [last];
      FirstOccurrencesOrdered(front);
      var p := FirstOccurrences(front);
      assert r == p || (r == p + [last] && last !in front);
      forall i, j | 0 <= i < j < |r|
        ensures FirstIndex(s, r[i]) < FirstIndex(s, r[j])
      {
        assert r[i] == p[i];
        assert r[i] in front;
        FirstIndexOfPrefix(front, [last], r[i]);
        if j < |p| {
          assert r[j] == p[j];
          FirstIndexOfPrefix(front, [last], r[j]);
          assert FirstIndex(front, p[i]) < FirstIndex(front, p[j]);
        } else {
          assert r[j] == last;
          FirstIndexOfNewLast(front, last);
        }
      }
    }
  }

  /** Buckets are ordered by the first occurrence of their date among the
      non-returned orders. */
  lemma BucketsOrderedByFirstOccurrence(orders: seq<Order>, dateKey: string -> string)
    ensures var b := SalesByDate(orders, dateKey);
            var ks := KeptDates(orders, dateKey);
            forall i, j :: 0 <= i < j < |b| ==>
              b[i].date in ks && b[j].date in ks && FirstIndex(ks, b[i].date) < FirstIndex(ks, b[j].date)
  {
    BucketDatesAreFirstOccurrences(orders, dateKey);
    var ks := KeptDates(orders, dateKey);
    FirstOccurrencesOrdered(ks);
    var b := SalesByDate(orders, dateKey);
    var ds := Dates(b);
    forall i, j | 0 <= i < j < |b|
      ensures b[i].date in ks && b[j].date in ks && FirstIndex(ks, b[i].date) < FirstIndex(ks, b[j].date)
    {
      assert ds[i] == b[i].date && ds[j] == b[j].date;
    }
  }

  /** Every bucket of `b` holds the count and the revenue of exactly the
      non-returned orders of its date and is non-empty, and a date without a
      bucket has no non-returned order. */
  ghost predicate BucketsMatch(orders: seq<Order>, dateKey: string -> string, b: seq<Bucket>)
  {
    && (forall j :: 0 <= j < |b| ==>
          && b[j].count == CountOn(orders, dateKey, b[j].date)
          && b[j].revenue == RevenueOn(orders, dateKey, b[j].date)
          && b[j].count >= 1)
    && (forall d :: d !in Dates(b) ==> CountOn(orders, dateKey, d) == 0 && RevenueOn(orders, dateKey, d) == 0)
  }

  /** Each bucket holds the count and the revenue of exactly the non-returned
      orders of its date, and so is never empty; a date without a bucket has
      no non-returned order. */
  lemma {:induction false} BucketContents(orders: seq<Order>, dateKey: string -> string)
    ensures var b := SalesByDate(orders, dateKey);
            && (forall j :: 0 <= j < |b| ==>
                  && b[j].count == CountOn(orders, dateKey, b[j].date)
                  && b[j].revenue == RevenueOn(orders, dateKey, b[j].date)
                  && b[j].count >= 1)
            && (forall d :: d !in Dates(b) ==> CountOn(orders, dateKey, d) == 0 && RevenueOn(orders, dateKey, d) == 0)
    decreases |orders|
  {
    if orders != [] {
      var front := orders[..|orders| - 1];
      var last := orders[|orders| - 1];
      BucketContents(front, dateKey);
      BucketDatesDistinct(front, dateKey);
      AddOrderKeepsMatch(front, last, dateKey, SalesByDate(front, dateKey));
      assert orders == front + [last];
    }
  }

  /** One step of the fold keeps every bucket in agreement with the orders seen so far. */
  lemma AddOrderKeepsMatch(front: seq<Order>, last: Order, dateKey: string -> string, b: seq<Bucket>)
    requires BucketsMatch(front, dateKey, b)
    requires forall i, j :: 0 <= i < j < |b| ==> b[i].date != b[j].date
    ensures BucketsMatch(front + [last], dateKey, AddOrder(b, last, dateKey))
  {
    if !IsKept(last) {
      assert (front + [last])[..|front|] == front;
    } else if IndexOfDate(b, dateKey(last.createdAt)) < |b| {
      ExistingBucketEntries(front, last, dateKey, b);
      ExistingBucketAbsentDates(front, last, dateKey, b);
    } else {
      NewBucketEntries(front, last, dateKey, b);
      NewBucketAbsentDates(front, last, dateKey, b);
    }
  }

  /** A non-returned order whose date already has a bucket updates that bucket only. */
  lemma ExistingBucketEntries(front: seq<Order>, last: Order, dateKey: string -> string, b: seq<Bucket>)
    requires IsKept(last) && BucketsMatch(front, dateKey, b)
    requires forall i, j :: 0 <= i < j < |b| ==> b[i].date != b[j].date
    requires IndexOfDate(b, dateKey(last.createdAt)) < |b|
    ensures var b' := AddOrder(b, last, dateKey);
            forall k :: 0 <= k < |b'| ==>
              && b'[k].count == CountOn(front + [last], dateKey, b'[k].date)
              && b'[k].revenue == RevenueOn(front + [last], dateKey, b'[k].date)
              && b'[k].count >= 1
  {
    var d := dateKey(last.createdAt);
    var j := IndexOfDate(b, d);
    var b' := b[j := Bucket(d, b[j].revenue + PriceOf(last), b[j].count + 1)];
    assert AddOrder(b, last, dateKey) == b';
    forall k | 0 <= k < |b'|
      ensures b'[k].count == CountOn(front + [last], dateKey, b'[k].date)
      ensures b'[k].revenue == RevenueOn(front + [last], dateKey, b'[k].date)
      ensures b'[k].count >= 1
    {
      UpdatedBucketEntry(front, last, dateKey, b, k);
    }
  }

  /** Bucket `k` after the update by `last`, from bucket `k` before it. */
  lemma UpdatedBucketEntry(front: seq<Order>, last: Order, dateKey: string -> string, b: seq<Bucket>, k: nat)
    requires IsKept(last) && k < |b|
    requires IndexOfDate(b, dateKey(last.createdAt)) < |b|
    requires b[k].count == CountOn(front, dateKey, b[k].date) && b[k].revenue == RevenueOn(front, dateKey, b[k].date)
    requires b[k].count >= 1
    requires k != IndexOfDate(b, dateKey(last.createdAt)) ==> b[k].date != dateKey(last.createdAt)
    ensures var d := dateKey(last.createdAt);
            var j := IndexOfDate(b, d);
            var b' := b[j := Bucket(d, b[j].revenue + PriceOf(last), b[j].count + 1)];
            && b'[k].count == CountOn(front + [last], dateKey, b'[k].date)
            && b'[k].revenue == RevenueOn(front + [last], dateKey, b'[k].date)
            && b'[k].count >= 1
  {
    assert (front + [last])[..|front|] == front;
  }

  /** Updating an existing bucket leaves the set of dates with a bucket unchanged. */
  lemma ExistingBucketAbsentDates(front: seq<Order>, last: Order, dateKey: string -> string, b: seq<Bucket>)
    requires IsKept(last) && BucketsMatch(front, dateKey, b)
    requires IndexOfDate(b, dateKey(last.createdAt)) < |b|
    ensures forall e :: e !in Dates(AddOrder(b, last, dateKey)) ==>
              CountOn(front + [last], dateKey, e) == 0 && RevenueOn(front + [last], dateKey, e) == 0
  {
    var d := dateKey(last.createdAt);
    var j := IndexOfDate(b, d);
    var b' := AddOrder(b, last, dateKey);
    assert b' == b[j := Bucket(d, b[j].revenue + PriceOf(last), b[j].count + 1)];
    assert Dates(b') == Dates(b);
    assert Dates(b)[j] == d;
    assert (front + [last])[..|front|] == front;
  }

  /** A non-returned order whose date has no bucket yet opens one at the end. */
  lemma NewBucketEntries(front: seq<Order>, last: Order, dateKey: string -> string, b: seq<Bucket>)
    requires IsKept(last) && BucketsMatch(front, dateKey, b)
    requires IndexOfDate(b, dateKey(last.createdAt)) == |b|
    ensures var b' := AddOrder(b, last, dateKey);
            forall k :: 0 <= k < |b'| ==>
              && b'[k].count == CountOn(front + [last], dateKey, b'[k].date)
              && b'[k].revenue == RevenueOn(front + [last], dateKey, b'[k].date)
              && b'[k].count >= 1
  {
    var d := dateKey(last.createdAt);
    var b' := AddOrder(b, last, dateKey);
    IndexOfDateFinds(b, d);
    assert b' == b + [Bucket(d, PriceOf(last), 1)];
    assert (front + [last])[..|front|] == front;
    forall k | 0 <= k < |b'|
      ensures b'[k].count == CountOn(front + [last], dateKey, b'[k].date)
      ensures b'[k].revenue == RevenueOn(front + [last], dateKey, b'[k].date)
      ensures b'[k].count >= 1
    {
      if k < |b| {
        assert b'[k] == b[k];
        assert b[k].date != d;
      }
    }
  }

  /** Opening a bucket for a new date leaves every other date's totals at zero. */
  lemma NewBucketAbsentDates(front: seq<Order>, last: Order, dateKey: string -> string, b: seq<Bucket>)
    requires IsKept(last) && BucketsMatch(front, dateKey, b)
    requires IndexOfDate(b, dateKey(last.createdAt)) == |b|
    ensures forall e :: e !in Dates(AddOrder(b, last, dateKey)) ==>
              CountOn(front + [last], dateKey, e) == 0 && RevenueOn(front + [last], dateKey, e) == 0
  {
    var d := dateKey(last.createdAt);
    var b' := AddOrder(b, last, dateKey);
    assert b' == b + [Bucket(d, PriceOf(last), 1)];
    assert Dates(b') == Dates(b) + [d];
    assert (front + [last])[..|front|] == front;
  }


  lemma {:induction false} SumCountsUpdate(b: seq<Bucket>, j: nat, x: Bucket)
    requires j < |b|
    ensures SumCounts(b[j := x]) == SumCounts(b) - b[j].count + x.count
    ensures SumRevenues(b[j := x]) == SumRevenues(b) - b[j].revenue + x.revenue
    decreases |b|
  {
    var n := |b| - 1;
    if j < n {
      SumCountsUpdate(b[..n], j, x);
      assert b[j := x][..n] == b[..n][j := x];
    } else {
      assert b[j := x][..n] == b[..n];
    }
  }

  /** One step of the fold adds one to the count total and the order's price
      to the revenue total, or nothing for a returned order. */
  lemma AddOrderTotals(b: seq<Bucket>, o: Order, dateKey: string -> string)
    ensures SumCounts(AddOrder(b, o, dateKey)) == SumCounts(b) + (if IsKept(o) then 1 else 0)
    ensures SumRevenues(AddOrder(b, o, dateKey)) == SumRevenues(b) + (if IsKept(o) then PriceOf(o) else 0)
  {
    if IsKept(o) {
      var d := dateKey(o.createdAt);
      var j := IndexOfDate(b, d);
      if j < |b| {
        SumCountsUpdate(b, j, Bucket(d, b[j].revenue + PriceOf(o), b[j].count + 1));
      } else {
        var b' := b + [Bucket(d, PriceOf(o), 1)];
        assert b'[..|b'| - 1] == b;
      }
    }
  }

  /** The bucket counts add up to the number of non-returned orders, and the
      bucket revenues to the total revenue. */
  lemma {:induction false} BucketTotals(orders: seq<Order>, dateKey: string -> string)
    ensures SumCounts(SalesByDate(orders, dateKey)) == |NotReturned(orders)|
    ensures SumRevenues(SalesByDate(orders, dateKey)) == TotalRevenue(orders)
    decreases |orders|
  {
    if orders != [] {
      var front := orders[..|orders| - 1];
      var last := orders[|orders| - 1];
      BucketTotals(front, dateKey);
      assert orders == front + [last];
      TotalRevenueStep(front, last);
      FilterSnoc(front, last, IsKept);
      AddOrderTotals(SalesByDate(front, dateKey), last, dateKey);
    }
  }

  /** The chart shows the last thirty buckets, or all of them when there are fewer. */
  lemma ChartDataIsLastBuckets(orders: seq<Order>, dateKey: string -> string)
    ensures var b := SalesByDate(orders, dateKey);
            var c := GetSalesAnalytics(orders, dateKey).chartData;
            && |c| == (if |b| <= ChartWindow then |b| else ChartWindow)
            && b == b[..|b| - |c|] + c
  {
  }
}
