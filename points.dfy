/** The points awarded to a validated receipt: seven independent rules whose
    contributions are added up. Amounts are exact integer cents. */
module Points {
  import opened Text
  import opened Receipts
  import opened Parsing

  // ---------------------------------------------------------------------
  // Rule 1: one point for every alphanumeric character of the retailer name

  /** sum(char.isalnum() for char in retailer) */
  function RetailerPoints(retailer: string): (n: nat)
    ensures n <= |retailer|
    decreases |retailer|
  {
    if retailer == [] then 0
    else RetailerPoints(retailer[..|retailer| - 1]) + (if IsAlnum(retailer[|retailer| - 1]) then 1 else 0)
  }

  /** The positions of the alphanumeric characters of s. */
  function AlnumPositions(s: string): set<int> {
    set i | 0 <= i < |s| && IsAlnum(s[i])
  }

  /** Rule 1 awards exactly as many points as the name has alphanumeric characters. */
  lemma {:induction false} RetailerPointsCountsAlnum(retailer: string)
    ensures RetailerPoints(retailer) == |AlnumPositions(retailer)|
    decreases |retailer|
  {
    if retailer != [] {
      var n := |retailer| - 1;
      var prefix := retailer[..n];
      RetailerPointsCountsAlnum(prefix);
      var last := if IsAlnum(retailer[n]) then {n} else {};
      assert AlnumPositions(retailer) == AlnumPositions(prefix) + last;
      assert n !in AlnumPositions(prefix);
    }
  }

  // ---------------------------------------------------------------------
  // Rules 2 and 3: a round-dollar total, and a total that is a multiple of 0.25

  /** 50 points if the total has no cents. */
  function RoundDollarPoints(total: string): (n: nat)
    requires IsMoney(total)
  {
    if Cents(total) % 100 == 0 then 50 else 0
  }

  /** 25 points if the total is a multiple of 0.25. */
  function QuarterPoints(total: string): (n: nat)
    requires IsMoney(total)
  {
    if Cents(total) % 25 == 0 then 25 else 0
  }

  /** The last two characters of an amount, its cents as written. */
  function CentsDigits(total: string): string
    requires IsMoney(total)
  {
    total[|total| - 2..]
  }

  lemma DigitZero(c: char)
    requires IsDigit(c)
    ensures DigitValue(c) == 0 <==> c == '0'
  {
  }

  /** Rule 2 awards 50 exactly when the total is written with ".00", and 0 otherwise. */
  lemma RoundDollarRule(total: string)
    requires IsMoney(total)
    ensures RoundDollarPoints(total) == (if CentsDigits(total) == "00" then 50 else 0)
  {
    var n := |total|;
    CentsFraction(total);
    DigitZero(total[n - 2]);
    DigitZero(total[n - 1]);
    assert CentsDigits(total) == [total[n - 2], total[n - 1]];
  }

  lemma QuarterOfHundreds(c: nat)
    ensures c % 25 == (c % 100) % 25
  {
    var q, f := c / 100, c % 100;
    assert c == 25 * (4 * q) + f;
  }

  lemma QuarterCents(d1: nat, d2: nat)
    requires d1 < 10 && d2 < 10
    ensures (10 * d1 + d2) % 25 == 0 <==>
      (d1, d2) == (0, 0) || (d1, d2) == (2, 5) || (d1, d2) == (5, 0) || (d1, d2) == (7, 5)
  {
    var f := 10 * d1 + d2;
    if f % 25 == 0 {
      var k := f / 25;
      assert f == 25 * k && k < 4;
    }
  }

  /** Rule 3 awards 25 exactly when the cents of the total are 00, 25, 50 or 75. */
  lemma QuarterRule(total: string)
    requires IsMoney(total)
    ensures QuarterPoints(total) == (if CentsDigits(total) in {"00", "25", "50", "75"} then 25 else 0)
  {
    var n := |total|;
    var c1, c2 := total[n - 2], total[n - 1];
    var d1, d2 := DigitValue(c1), DigitValue(c2);
    CentsFraction(total);
    QuarterOfHundreds(Cents(total));
    QuarterCents(d1, d2);
    assert CentsDigits(total) == [c1, c2];
    assert DigitChar(d1) == c1 && DigitChar(d2) == c2;
  }

  /** A round-dollar total also earns the quarter bonus: 75 points from rules 2 and 3. */
  lemma RoundTotalEarnsBoth(total: string)
    requires IsMoney(total)
    requires RoundDollarPoints(total) == 50
    ensures QuarterPoints(total) == 25
    ensures RoundDollarPoints(total) + QuarterPoints(total) == 75
  {
    QuarterOfHundreds(Cents(total));
  }

  lemma NineDollarsEarnsBoth()
    ensures RoundDollarPoints("9.00") + QuarterPoints("9.00") == 75
  {
    RoundDollarRule("9.00");
    RoundTotalEarnsBoth("9.00");
  }

  // ---------------------------------------------------------------------
  // Rule 4: five points for every two items

  function PairPoints(items: seq<Item>): (n: nat)
  {
    (|items| / 2) * 5
  }

  /** Two more items are one more pair, worth five more points. */
  lemma PairPointsAddPair(items: seq<Item>, a: Item, b: Item)
    ensures PairPoints(items + [a, b]) == PairPoints(items) + 5
  {
  }

  lemma PairPointsExamples(a: Item, b: Item, c: Item, d: Item)
    ensures PairPoints([a]) == 0 && PairPoints([a, b, c, d]) == 10
  {
  }

  // ---------------------------------------------------------------------
  // Rule 5: an item whose trimmed description length is a multiple of 3
  // earns the price times 0.2, rounded up

  /** math.ceil(price * 0.2) for a price of c cents, that is the ceiling of c / 500. */
  function CeilFifth(c: nat): (r: nat)
    ensures 500 * r >= c
    ensures 500 * (r - 1) < c
  {
    (c + 499) / 500
  }

  function ItemPoints(item: Item): (n: nat)
    requires IsItem(item)
  {
    if |Strip(item.shortDescription)| % 3 == 0 then CeilFifth(Cents(item.price)) else 0
  }

  // Facts about sequences of any element type, stated apart from the item
  // predicates so that proving them does not unfold item validity.

  lemma AppendEmpty<T>(a: seq<T>, b: seq<T>)
    requires b == []
    ensures a + b == a
  {
  }

  lemma DropLastOfAppend<T>(a: seq<T>, b: seq<T>)
    requires b != []
    ensures (a + b)[..|a + b| - 1] == a + b[..|b| - 1]
    ensures (a + b)[|a + b| - 1] == b[|b| - 1]
  {
  }

  lemma SplitAround<T>(b: seq<T>, k: nat)
    requires k < |b|
    ensures b == b[..k] + [b[k]] + b[k + 1..]
  {
  }

  /** Where the last element of a sits in a permutation b of a, and what is left of both. */
  lemma MatchInPermutation<T>(a: seq<T>, b: seq<T>, n: nat) returns (k: nat)
    requires multiset(a) == multiset(b) && n == |a| - 1
    ensures k < |b| && b[k] == a[n]
    ensures multiset(a[..n]) == multiset(b[..k] + b[k + 1..])
  {
    assert a[n] in multiset(b) by { assert a[n] in multiset(a); }
    k :| 0 <= k < |b| && b[k] == a[n];
    assert a == a[..n] + [a[n]];
    assert b == b[..k] + [b[k]] + b[k + 1..];
    assert multiset(a[..n]) == multiset(a) - multiset{a[n]};
    assert multiset(b[..k] + b[k + 1..]) == multiset(b) - multiset{b[k]};
  }

  lemma SingletonPrefix<T>(x: T)
    ensures [x][..0] == []
  {
  }

  /** The rule-5 points of a list of items, item by item in list order. */
  function ItemsPoints(items: seq<Item>): (n: nat)
    requires AllItems(items)
    decreases |items|
  {
    if items == [] then 0 else ItemsPoints(items[..|items| - 1]) + ItemPoints(items[|items| - 1])
  }

  /** Extending a prefix of the items by one item adds that item's points. */
  lemma ItemsPointsStep(items: seq<Item>, i: nat)
    requires AllItems(items) && i < |items|
    ensures AllItems(items[..i]) && AllItems(items[..i + 1])
    ensures ItemsPoints(items[..i + 1]) == ItemsPoints(items[..i]) + ItemPoints(items[i])
  {
    assert items[..i + 1][..i] == items[..i];
  }

  lemma AllItemsAppend(a: seq<Item>, b: seq<Item>)
    requires AllItems(a) && AllItems(b)
    ensures AllItems(a + b)
  {
    forall i | 0 <= i < |a + b| ensures IsItem((a + b)[i]) {
      if i >= |a| { assert (a + b)[i] == b[i - |a|]; }
    }
  }

  /** Rule 5 is additive over a split of the item list. */
  lemma {:induction false} ItemsPointsAppend(a: seq<Item>, b: seq<Item>)
    requires AllItems(a) && AllItems(b)
    ensures AllItems(a + b)
    ensures ItemsPoints(a + b) == ItemsPoints(a) + ItemsPoints(b)
    decreases |b|
  {
    AllItemsAppend(a, b);
    if b == [] {
      AppendEmpty(a, b);
    } else {
      var b' := b[..|b| - 1];
      AllItemsSplit(b, |b| - 1);
      ItemsPointsAppend(a, b');
      DropLastOfAppend(a, b);
    }
  }

  lemma AllItemsSameMultiset(a: seq<Item>, b: seq<Item>)
    requires AllItems(a) && multiset(a) == multiset(b)
    ensures AllItems(b)
  {
    forall i | 0 <= i < |b| ensures IsItem(b[i]) {
      assert b[i] in multiset(a);
      var j :| 0 <= j < |a| && a[j] == b[i];
    }
  }

  lemma AllItemsSplit(b: seq<Item>, k: nat)
    requires AllItems(b) && k <= |b|
    ensures AllItems(b[..k]) && AllItems(b[k..])
  {
    forall i | 0 <= i < k ensures IsItem(b[..k][i]) {
      assert b[..k][i] == b[i];
    }
    forall i | 0 <= i < |b| - k ensures IsItem(b[k..][i]) {
      assert b[k..][i] == b[k + i];
    }
  }

  /** Taking item k out of a list takes away exactly that item's points. */
  lemma ItemsPointsRemove(b: seq<Item>, k: nat)
    requires AllItems(b) && k < |b|
    ensures AllItems(b[..k] + b[k + 1..])
    ensures ItemsPoints(b) == ItemsPoints(b[..k] + b[k + 1..]) + ItemPoints(b[k])
  {
    var x := b[k];
    SplitAround(b, k);
    AllItemsSplit(b, k);
    AllItemsSplit(b, k + 1);
    assert ItemsPoints([x]) == ItemPoints(x) by { SingletonPrefix(x); }
    ItemsPointsAppend(b[..k], [x]);
    ItemsPointsAppend(b[..k] + [x], b[k + 1..]);
    ItemsPointsAppend(b[..k], b[k + 1..]);
  }

  /** Rule 5 does not depend on the order of the items. */
  lemma {:induction false} ItemsPointsPermutation(a: seq<Item>, b: seq<Item>)
    requires AllItems(a) && multiset(a) == multiset(b)
    ensures AllItems(b)
    ensures ItemsPoints(a) == ItemsPoints(b)
    decreases |a|
  {
    AllItemsSameMultiset(a, b);
    if a != [] {
      var n := |a| - 1;
      var k := MatchInPermutation(a, b, n);
      AllItemsSplit(a, n);
      ItemsPointsPermutation(a[..n], b[..k] + b[k + 1..]);
      ItemsPointsRemove(b, k);
    }
  }

  /** A description made only of whitespace trims to length 0, a multiple of 3,
      so the item earns the rounded-up fifth of its price. */
  lemma BlankDescriptionEarns(item: Item)
    requires IsItem(item)
    requires forall i :: 0 <= i < |item.shortDescription| ==> IsPatternSpace(item.shortDescription[i])
    ensures ItemPoints(item) == CeilFifth(Cents(item.price))
  {
    var d := item.shortDescription;
    forall i | 0 <= i < |d| ensures IsStripSpace(d[i]) {
      PatternSpaceIsStripSpace(d[i]);
    }
    StripEmpty(d);
  }

  lemma TenDollarsInCents()
    ensures IsMoney("10.00") && Cents("10.00") == 1000
  {
    assert "10.00"[..2] == "10" && "10.00"[3..] == "00";
    CentsFraction("10.00");
    TwoDigits("10");
  }

  /** A description of trimmed length 9 priced 10.00 earns ceil(2.0) = 2. */
  lemma NineCharacterItemEarns(description: string)
    requires IsDescription(description) && |Strip(description)| == 9
    ensures IsItem(Item(description, "10.00")) && ItemPoints(Item(description, "10.00")) == 2
  {
    TenDollarsInCents();
  }

  /** A description whose trimmed length is not a multiple of 3 earns nothing, whatever the price. */
  lemma UnevenDescriptionEarnsNothing(item: Item)
    requires IsItem(item) && |Strip(item.shortDescription)| % 3 != 0
    ensures ItemPoints(item) == 0
  {
  }

  // ---------------------------------------------------------------------
  // Rule 6: six points if the day of the purchase date is odd

  function OddDayPoints(date: string): (n: nat)
    requires IsDate(date)
  {
    if Day(date) % 2 != 0 then 6 else 0
  }

  /** Rule 6 awards 6 exactly when the last digit of the date is odd. */
  lemma OddDayRule(date: string)
    requires IsDate(date)
    ensures OddDayPoints(date) == (if date[9] in "13579" then 6 else 0)
  {
    var a, b := DigitValue(date[8]), DigitValue(date[9]);
    assert (10 * a + b) % 2 == b % 2 by {
      assert 10 * a + b == 2 * (5 * a) + b;
    }
    assert DigitChar(b) == date[9];
  }

  // ---------------------------------------------------------------------
  // Rule 7: ten points for a purchase time with hour 14 or 15 and a non-zero minute

  function AfternoonPoints(time: string): (n: nat)
    requires IsTime(time)
  {
    var clock := HourMinute(time);
    var hour, minute := clock.0, clock.1;
    if 14 <= hour < 16 && 0 < minute < 60 then 10 else 0
  }

  /** Rule 7 awards 10 exactly when the time reads 14:MM or 15:MM with MM between
      01 and 59; every time on the hour, 14:00 and 15:00 included, earns nothing. */
  lemma AfternoonRule(time: string)
    requires IsTime(time)
    ensures AfternoonPoints(time) ==
      (if time[..2] in {"14", "15"} && '0' <= time[3] <= '5' && time[3..] != "00" then 10 else 0)
  {
    var h0, h1 := DigitValue(time[0]), DigitValue(time[1]);
    var m0, m1 := DigitValue(time[3]), DigitValue(time[4]);
    assert time[..2] == [time[0], time[1]];
    assert time[3..] == [time[3], time[4]];
    assert DigitChar(h0) == time[0] && DigitChar(h1) == time[1];
    assert DigitChar(m0) == time[3] && DigitChar(m1) == time[4];
  }

  /** No time on the hour earns the bonus, 14:00 and 15:00 included. */
  lemma OnTheHourEarnsNothing(time: string)
    requires IsTime(time) && time[3..] == "00"
    ensures AfternoonPoints(time) == 0
  {
    AfternoonRule(time);
  }

  lemma HalfPastTwoEarns()
    ensures IsTime("14:30") && AfternoonPoints("14:30") == 10
  {
    TimeByPosition("14:30");
    assert HourMinute("14:30") == (14, 30);
  }

  lemma LastMinuteEarns()
    ensures IsTime("15:59") && AfternoonPoints("15:59") == 10
  {
    TimeByPosition("15:59");
    assert HourMinute("15:59") == (15, 59);
  }

  lemma FourPmEarnsNothing()
    ensures IsTime("16:00") && AfternoonPoints("16:00") == 0
  {
    TimeByPosition("16:00");
    assert HourMinute("16:00").0 == 16;
  }

  // ---------------------------------------------------------------------
  // The score

  /** The points of a validated receipt: the seven rule contributions added up. */
  function Score(r: Receipt): nat
    requires IsReceipt(r)
  {
    RetailerPoints(r.retailer)
    + RoundDollarPoints(r.total)
    + QuarterPoints(r.total)
    + PairPoints(r.items)
    + ItemsPoints(r.items)
    + OddDayPoints(r.purchaseDate)
    + AfternoonPoints(r.purchaseTime)
  }

  /** The item loop of calculate_points (rule 5): walks the items in order and adds
      the rounded-up fifth of the price of each item whose trimmed description length
      is a multiple of 3. */
  method SumItemPoints(items: seq<Item>) returns (points: int)
    requires AllItems(items)
    ensures points == ItemsPoints(items)
  {
    points := 0;
    for i := 0 to |items|
      invariant points == ItemsPoints(items[..i])
    {
      var item := items[i];
      var length := |Strip(item.shortDescription)|;
      if length % 3 == 0 {
        points := points + CeilFifth(Cents(item.price));
      }
      ItemsPointsStep(items, i);
    }
    assert items[..|items|] == items;
  }

  /** calculate_points: accumulates the seven rules in turn and returns exactly the
      sum of the rule contributions. */
  method CalculatePoints(r: Receipt) returns (points: int)
    requires IsReceipt(r)
    ensures points == Score(r)
  {
    points := 0;
    points := points + RetailerPoints(r.retailer);
    var total := Cents(r.total);
    if total % 100 == 0 {
      points := points + 50;
    }
    if total % 25 == 0 {
      points := points + 25;
    }
    assert points == RetailerPoints(r.retailer) + RoundDollarPoints(r.total) + QuarterPoints(r.total);
    points := points + (|r.items| / 2) * 5;
    var itemPoints := SumItemPoints(r.items);
    points := points + itemPoints;
    ghost var beforeDay := points;
    var day := Day(r.purchaseDate);
    if day % 2 != 0 {
      points := points + 6;
    }
    assert points == beforeDay + OddDayPoints(r.purchaseDate);
    var clock := HourMinute(r.purchaseTime);
    var hour, minute := clock.0, clock.1;
    if 14 <= hour < 16 && 0 < minute < 60 {
      points := points + 10;
    }
  }

  /** The score of a receipt does not depend on the order in which its items are listed. */
  lemma ScoreIgnoresItemOrder(r: Receipt, items: seq<Item>)
    requires IsReceipt(r) && multiset(items) == multiset(r.items)
    ensures IsReceipt(r.(items := items))
    ensures Score(r.(items := items)) == Score(r)
  {
    ItemsPointsPermutation(r.items, items);
    assert |items| == |multiset(items)| == |r.items|;
  }
}
