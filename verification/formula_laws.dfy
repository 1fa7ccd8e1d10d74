/** Properties of the range functions of `FormulaHandler`: how SUM,
    AVERAGE, MAX, MIN and COUNT relate to one another. */
module FormulaLaws {
  import opened Numbers
  import opened Formula

  /** The real total of the finite numbers in a list. */
  function Total(nums: seq<Number>): real
    decreases |nums|
  {
    if nums == [] then 0.0
    else
      var last := nums[|nums| - 1];
      Total(nums[..|nums| - 1]) + (if last.Finite? then last.r else 0.0)
  }

  predicate AllFinite(nums: seq<Number>)
  {
    forall k :: 0 <= k < |nums| ==> nums[k].Finite?
  }

  /** When no value reads as an infinity, SUM is the ordinary total of the
      values that read as numbers; text that does not parse adds nothing. */
  lemma {:induction false} SumIsTotal(vals: seq<Value>)
    requires AllFinite(Numerics(vals))
    ensures Sum(vals) == Finite(Total(Numerics(vals)))
    decreases |vals|
  {
    if vals != [] {
      var init := vals[..|vals| - 1];
      var n := ParseValue(vals[|vals| - 1]);
      var prev := Numerics(init);
      if n.NaN? {
        assert Numerics(vals) == prev;
      } else {
        assert Numerics(vals) == prev + [n];
        assert (prev + [n])[|prev|] == n;
        assert forall k :: 0 <= k < |prev| ==> (prev + [n])[k] == prev[k];
        assert (prev + [n])[..|prev|] == prev;
      }
      SumIsTotal(init);
    }
  }

  /** The positions of the values that read as numbers. */
  function ParsedAt(vals: seq<Value>): set<nat>
  {
    set k: nat | k < |vals| && !ParseValue(vals[k]).NaN?
  }

  /** The positions of the values that read as numbers, in increasing order. */
  function ParsedPositions(vals: seq<Value>): (idx: seq<nat>)
    ensures forall j :: 0 <= j < |idx| ==> idx[j] < |vals| && !ParseValue(vals[idx[j]]).NaN?
    ensures forall i, j :: 0 <= i < j < |idx| ==> idx[i] < idx[j]
    ensures forall k :: 0 <= k < |vals| && !ParseValue(vals[k]).NaN? ==> k in idx
    decreases |vals|
  {
    if vals == [] then []
    else
      var last := |vals| - 1;
      var init := vals[..last];
      assert forall k :: 0 <= k < last ==> init[k] == vals[k];
      var prev := ParsedPositions(init);
      if ParseValue(vals[last]).NaN? then prev else prev + [last]
  }

  /** The numbers the range functions work on are the values that read as
      numbers, each once and in the order of the range. */
  lemma {:induction false} NumericsIsFilter(vals: seq<Value>)
    ensures |Numerics(vals)| == |ParsedPositions(vals)|
    ensures forall j :: 0 <= j < |Numerics(vals)| ==>
      Numerics(vals)[j] == ParseValue(vals[ParsedPositions(vals)[j]])
    decreases |vals|
  {
    if vals != [] {
      var last := |vals| - 1;
      var init := vals[..last];
      NumericsIsFilter(init);
      assert forall k :: 0 <= k < last ==> init[k] == vals[k];
      var nums, idx := Numerics(init), ParsedPositions(init);
      if !ParseValue(vals[last]).NaN? {
        assert Numerics(vals) == nums + [ParseValue(vals[last])];
        assert ParsedPositions(vals) == idx + [last];
      }
    }
  }

  /** As many numbers as positions that read as numbers. */
  lemma {:induction false} NumericsCount(vals: seq<Value>)
    ensures |Numerics(vals)| == |ParsedAt(vals)|
    decreases |vals|
  {
    if vals != [] {
      var last := |vals| - 1;
      NumericsCount(vals[..last]);
      ParsedAtSnoc(vals);
    }
  }

  /** The last value adds its position exactly when it reads as a number. */
  lemma ParsedAtSnoc(vals: seq<Value>)
    requires vals != []
    ensures var last := |vals| - 1;
      ParsedAt(vals) == ParsedAt(vals[..last]) + (if ParseValue(vals[last]).NaN? then {} else {last})
    ensures |vals| - 1 !in ParsedAt(vals[..|vals| - 1])
  {
    var last := |vals| - 1;
    var init := vals[..last];
    assert forall k :: 0 <= k < last ==> init[k] == vals[k];
  }

  /** COUNT is the number of cells in the range whose value reads as a
      number. */
  lemma CountIsParsedCells(vals: seq<Value>)
    ensures Aggregate("COUNT", vals) == Finite(|ParsedAt(vals)| as real)
  {
    NumericsCount(vals);
  }

  /** A total of numbers between `lo` and `hi` lies between `n * lo` and
      `n * hi`. */
  lemma {:induction false} TotalBounds(nums: seq<Number>, lo: real, hi: real)
    requires AllFinite(nums)
    requires forall k :: 0 <= k < |nums| ==> lo <= nums[k].r <= hi
    ensures |nums| as real * lo <= Total(nums) <= |nums| as real * hi
    decreases |nums|
  {
    if nums != [] {
      var init := nums[..|nums| - 1];
      assert forall k :: 0 <= k < |init| ==> init[k] == nums[k];
      TotalBounds(init, lo, hi);
      var n, x := |init| as real, nums[|nums| - 1].r;
      assert Total(nums) == Total(init) + x;
      assert lo <= x <= hi;
      assert |nums| as real * lo == n * lo + lo;
      assert |nums| as real * hi == n * hi + hi;
    }
  }

  /** With at least one number and no infinity among them, AVERAGE lies
      between MIN and MAX. */
  lemma AverageBetween(vals: seq<Value>)
    requires |Numerics(vals)| > 0 && AllFinite(Numerics(vals))
    ensures Aggregate("AVERAGE", vals).Finite?
    ensures Aggregate("MIN", vals).Finite? && Aggregate("MAX", vals).Finite?
    ensures Aggregate("MIN", vals).r <= Aggregate("AVERAGE", vals).r <= Aggregate("MAX", vals).r
  {
    MeanBetween(Numerics(vals));
    AverageIsMean(vals);
    AggregateMin(vals);
    AggregateMax(vals);
  }

  lemma AggregateMin(vals: seq<Value>)
    requires |Numerics(vals)| > 0
    ensures Aggregate("MIN", vals) == MinOf(Numerics(vals))
  {
    assert "MIN" != "SUM" && "MIN" != "AVERAGE" && "MIN" != "MAX";
  }

  lemma AggregateMax(vals: seq<Value>)
    requires |Numerics(vals)| > 0
    ensures Aggregate("MAX", vals) == MaxOf(Numerics(vals))
  {
    assert "MAX" != "SUM" && "MAX" != "AVERAGE";
  }

  /** The mean of finite numbers lies between their least and greatest. */
  lemma MeanBetween(nums: seq<Number>)
    requires |nums| > 0 && AllFinite(nums)
    ensures MinOf(nums).Finite? && MaxOf(nums).Finite?
    ensures MinOf(nums).r <= Total(nums) / |nums| as real <= MaxOf(nums).r
  {
    MinMaxBounds(nums);
    MeanWithin(nums, MinOf(nums).r, MaxOf(nums).r);
  }

  /** Numbers between `lo` and `hi` have their mean between them too. */
  lemma MeanWithin(nums: seq<Number>, lo: real, hi: real)
    requires |nums| > 0 && AllFinite(nums)
    requires forall k :: 0 <= k < |nums| ==> lo <= nums[k].r <= hi
    ensures lo <= Total(nums) / |nums| as real <= hi
  {
    TotalBounds(nums, lo, hi);
    DivBetween(Total(nums), |nums| as real, lo, hi);
  }

  /** MIN and MAX of finite numbers are finite and bound every one of them. */
  lemma MinMaxBounds(nums: seq<Number>)
    requires |nums| > 0 && AllFinite(nums)
    ensures MinOf(nums).Finite? && MaxOf(nums).Finite?
    ensures forall k :: 0 <= k < |nums| ==> MinOf(nums).r <= nums[k].r <= MaxOf(nums).r
  {
    var lo, hi := MinOf(nums), MaxOf(nums);
    forall k | 0 <= k < |nums|
      ensures lo.r <= nums[k].r <= hi.r
    {
      assert !Less(nums[k], lo) && !Less(hi, nums[k]);
    }
  }

  /** AVERAGE of finite numbers is their total over their count. */
  lemma AverageIsMean(vals: seq<Value>)
    requires |Numerics(vals)| > 0 && AllFinite(Numerics(vals))
    ensures Aggregate("AVERAGE", vals) == Finite(Total(Numerics(vals)) / |Numerics(vals)| as real)
  {
    SumIsTotal(vals);
  }

  lemma DivBetween(t: real, n: real, lo: real, hi: real)
    requires n > 0.0 && n * lo <= t <= n * hi
    ensures lo <= t / n <= hi
  {
    assert t / n * n == t;
  }

  /** COUNT is the number of values that read as numbers: never more than
      the values in the range. */
  lemma CountAtMost(vals: seq<Value>)
    ensures Aggregate("COUNT", vals).Finite?
    ensures Aggregate("COUNT", vals).r <= |vals| as real
  {
  }

  /** Values none of which reads as a number leave no numbers. */
  lemma {:induction false} NoNumbers(vals: seq<Value>)
    requires forall k :: 0 <= k < |vals| ==> ParseValue(vals[k]).NaN?
    ensures Numerics(vals) == []
    decreases |vals|
  {
    if vals != [] {
      NoNumbers(vals[..|vals| - 1]);
    }
  }

  /** An all-text range that parses to nothing has SUM, AVERAGE, MAX and MIN
      zero. */
  lemma NoNumbersGiveZero(vals: seq<Value>, name: string)
    requires name in RangeFunctions
    requires forall k :: 0 <= k < |vals| ==> ParseValue(vals[k]).NaN?
    ensures Aggregate(name, vals) == Finite(0.0)
  {
    NoNumbers(vals);
    if name == "SUM" {
      SumIsTotal(vals);
    }
  }
}
