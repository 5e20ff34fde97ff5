/**
 * The dashboard screen's client-side transforms: the line-chart series
 * derived from the endpoint's chart entries, and the rule that shows the
 * present/absent distribution chart.
 */
module DashboardPage {
  import opened Wrappers
  import opened Text
  import opened JsValues
  import DashboardApi

  /** A chart entry as it arrives in JSON; `NullItem` is a null element. */
  datatype ChartItem = NullItem | Item(day: JsValue, present: JsValue, absent: JsValue)

  datatype LinePoint = LinePoint(day: JsValue, present: int, absent: int, attendancePercentage: int)

  /** A string `Number()` reads as an integer: optional sign, then decimal digits. */
  predicate IsIntegerText(t: string) {
    |t| >= 1 &&
    if t[0] == '+' || t[0] == '-' then |t| >= 2 && AllDigits(t[1..]) else AllDigits(t)
  }

  function IntegerTextValue(t: string): int
    requires IsIntegerText(t)
  {
    var magnitude: int := if t[0] == '-' || t[0] == '+' then RadixValue(t[1..], 10) else RadixValue(t, 10);
    if t[0] == '-' then -magnitude else magnitude
  }

  /**
   * `Number(v) || 0`: numbers as they are, booleans as 1 and 0, strings
   * holding an integer (surrounding whitespace allowed) as that integer, and
   * everything that converts to 0 or NaN as 0.
   */
  function NumberOrZero(v: JsValue): (n: int)
    ensures v.Num? ==> n == v.n
    ensures v.Undefined? || v.Null? || v.Object? ==> n == 0
  {
    match v
    case Num(x) => x
    case Bool(b) => if b then 1 else 0
    case Str(s) => var t := Trim(s); if IsIntegerText(t) then IntegerTextValue(t) else 0
    case _ => 0
  }

  /**
   * `Math.round(present / total * 100)`: the nearest whole percent, a half
   * rounding up; 0 when the total is not positive.
   */
  function RoundPercent(present: int, total: int): (r: int)
    ensures total <= 0 ==> r == 0
    ensures total > 0 ==> 2 * total * r <= 200 * present + total < 2 * total * r + 2 * total
  {
    if total <= 0 then 0
    else
      var a, b := 200 * present + total, 2 * total;
      assert a == b * (a / b) + a % b && 0 <= a % b < b;
      a / b
  }

  /** With non-negative counts the rounded percentage lies in 0..100. */
  lemma PercentInRange(present: int, absent: int)
    requires present >= 0 && absent >= 0
    ensures 0 <= RoundPercent(present, present + absent) <= 100
  {
    var total := present + absent;
    if total > 0 {
      var r := RoundPercent(present, total);
      assert total * (2 * r) == 2 * total * r;
      assert total * (2 * r + 2) == 2 * total * r + 2 * total;
      assert total * (2 * r) <= total * 201;
      ScaleCancel(total, 2 * r, 201);
      assert total * 1 < total * (2 * r + 2);
      ScaleCancel(total, 2 * r + 2, 1);
    }
  }

  /** Dividing both sides of a comparison by a positive factor. */
  lemma ScaleCancel(c: int, a: int, b: int)
    requires c > 0
    ensures c * a <= c * b ==> a <= b
  {
    if a > b {
      var d := a - b;
      assert c * a == c * b + c * d;
      assert c * d == c + c * (d - 1);
      assert c * (d - 1) >= 0;
    }
  }

  /** One entry of the line series. */
  function LinePointOf(item: ChartItem): LinePoint {
    var day := if item.Item? then item.day else Undefined;
    var present := if item.Item? then NumberOrZero(item.present) else 0;
    var absent := if item.Item? then NumberOrZero(item.absent) else 0;
    var total := present + absent;
    LinePoint(Or(day, Str("")), present, absent, if total > 0 then RoundPercent(present, total) else 0)
  }

  /** `chartData?.map(...) || []`: one point per entry in order, nothing when chart data is missing. */
  function LineChartData(chartData: Option<seq<ChartItem>>): (points: seq<LinePoint>)
    ensures chartData.None? ==> points == []
    ensures chartData.Some? ==> |points| == |chartData.value|
    ensures chartData.Some? ==> forall i :: 0 <= i < |points| ==> points[i] == LinePointOf(chartData.value[i])
  {
    match chartData
    case None => []
    case Some(items) => seq(|items|, i requires 0 <= i < |items| => LinePointOf(items[i]))
  }

  /** Missing counts become 0, a missing day the empty string, and a point without counts shows 0%. */
  lemma MissingValuesDefault(item: ChartItem)
    ensures item.NullItem? ==> LinePointOf(item) == LinePoint(Str(""), 0, 0, 0)
    ensures item.Item? && !Truthy(item.day) ==> LinePointOf(item).day == Str("")
    ensures item.Item? && Truthy(item.day) ==> LinePointOf(item).day == item.day
    ensures item.Item? && (item.present.Undefined? || item.present.Null?) ==> LinePointOf(item).present == 0
    ensures item.Item? && (item.absent.Undefined? || item.absent.Null?) ==> LinePointOf(item).absent == 0
  {
  }

  /**
   * Entries the endpoint produces (decimal day text, integer counts) keep
   * their day and counts, and, when both counts are non-negative, their
   * percentage lies in 0..100.
   */
  lemma ApiPointsCarryOver(p: DashboardApi.ChartPoint)
    requires p.day != []
    ensures var q := LinePointOf(Item(Str(p.day), Num(p.present), Num(p.absent)));
      && q.day == Str(p.day) && q.present == p.present && q.absent == p.absent
      && (p.present >= 0 && p.absent >= 0 ==> 0 <= q.attendancePercentage <= 100)
  {
    if p.present >= 0 && p.absent >= 0 {
      PercentInRange(p.present, p.absent);
    }
  }

  /** `pieChartData[0].value > 0 || pieChartData[1].value > 0`, on percentages in tenths. */
  predicate PieVisible(presentTenths: int, absentTenths: int) {
    presentTenths > 0 || absentTenths > 0
  }

  /**
   * With a non-negative present count and a non-negative total the
   * distribution chart is shown exactly when there is at least one record.
   * The absent count may be negative, as the month mode's implied absence
   * makes it when more days are marked present than the window counts.
   */
  lemma PieShownIffRecords(present: int, absent: int)
    requires present >= 0 && present + absent >= 0
    ensures PieVisible(DashboardApi.PercentTenths(present, present + absent),
                       DashboardApi.PercentTenths(absent, present + absent))
        <==> present + absent > 0
  {
    var total := present + absent;
    if total > 0 {
      if absent >= 0 {
        DashboardApi.PercentagesSum(present, absent, total);
      } else {
        PresentBeyondTotal(present, total);
      }
    }
  }

  /** A present count above a positive total has a positive percentage. */
  lemma PresentBeyondTotal(present: int, total: int)
    requires 0 < total < present
    ensures DashboardApi.PercentTenths(present, total) > 0
  {
    var t := DashboardApi.PercentTenths(present, total);
    assert 2000 * present - 2 * total * t <= total;
    assert 2 * total * t >= 2000 * present - total > 2 * total;
  }
}
