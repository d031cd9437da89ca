/**
 * The number lists of `w` and `m` rules: comma-separated tokens read with
 * strconv.Atoi, each range-checked, collected into a slice, sorted in place
 * with sort.Slice, and later searched with a `for range ... break` loop.
 */
module Lists {
  import opened Wrappers
  import opened Text

  /** Which list a token belongs to: weekdays of `w`, days or months of `m`. */
  datatype Field = WeekdayField | DayField | MonthField

  /**
   * The range check of each list and the value kept: weekdays 0..7 with 7
   * stored as 0 (Sunday), days 1..31 or -1, -2, months 1..12.
   */
  function Accept(f: Field, n: int): (r: Option<int>)
    ensures f == WeekdayField ==> (r.Some? <==> 0 <= n <= 7) && (r.Some? ==> r.value == n % 7)
    ensures f == DayField ==> (r.Some? <==> (-2 <= n <= 31 && n != 0)) && (r.Some? ==> r.value == n)
    ensures f == MonthField ==> (r.Some? <==> 1 <= n <= 12) && (r.Some? ==> r.value == n)
  {
    match f
    case WeekdayField => if n > 7 || n < 0 then None else if n == 7 then Some(0) else Some(n)
    case DayField => if n > 31 || n == 0 || n < -2 then None else Some(n)
    case MonthField => if n > 12 || n < 1 then None else Some(n)
  }

  /** The values a list keeps after the range check (a weekday 7 is stored as 0). */
  predicate InRange(f: Field, x: int) {
    match f
    case WeekdayField => 0 <= x < 7
    case DayField => -2 <= x <= 31 && x != 0
    case MonthField => 1 <= x <= 12
  }

  /** A token's value: Atoi succeeds and the number passes the list's range check. */
  function TokenValue(tok: string, f: Field): Option<int> {
    match Atoi(tok)
    case None => None
    case Some(n) => Accept(f, n)
  }

  predicate AllAccepted(tokens: seq<string>, f: Field) {
    forall i :: 0 <= i < |tokens| ==> TokenValue(tokens[i], f).Some?
  }

  /** The values a fully accepted token list stands for; their order never matters to the resolver. */
  function ValueSet(tokens: seq<string>, f: Field): set<int>
    requires AllAccepted(tokens, f)
  {
    set i | 0 <= i < |tokens| :: TokenValue(tokens[i], f).value
  }

  function Elems(s: seq<int>): set<int> {
    set x | x in s
  }

  /**
   * The parsing loops of task.go: every token is read in turn, the first
   * one that fails ends the parse, accepted values are collected in order.
   */
  method ParseField(tokens: seq<string>, f: Field) returns (r: Option<seq<int>>)
    ensures r.Some? <==> AllAccepted(tokens, f)
    ensures r.Some? ==> |r.value| == |tokens|
    ensures r.Some? ==> forall i :: 0 <= i < |tokens| ==> r.value[i] == TokenValue(tokens[i], f).value
    ensures r.Some? ==> Elems(r.value) == ValueSet(tokens, f)
    ensures r.Some? ==> forall x :: x in r.value ==> InRange(f, x)
  {
    var values: seq<int> := [];
    var i := 0;
    while i < |tokens|
      invariant 0 <= i <= |tokens|
      invariant |values| == i
      invariant forall k :: 0 <= k < i ==> TokenValue(tokens[k], f).Some? && values[k] == TokenValue(tokens[k], f).value
    {
      var v := TokenValue(tokens[i], f);
      if v.None? {
        return None;
      }
      values := values + [v.value];
      i := i + 1;
    }
    r := Some(values);
    assert Elems(values) == ValueSet(tokens, f) by {
      forall x | x in ValueSet(tokens, f) ensures x in Elems(values) {
        var k :| 0 <= k < |tokens| && TokenValue(tokens[k], f).value == x;
        assert values[k] == x;
      }
    }
  }

  predicate Ascending(s: seq<int>) {
    forall i, j :: 0 <= i < j < |s| ==> s[i] <= s[j]
  }

  /** sort.Slice(xs, less) with less = "<": the same values, in ascending order. */
  method SortAscending(xs: seq<int>) returns (r: seq<int>)
    ensures Ascending(r)
    ensures multiset(r) == multiset(xs)
  {
    var a := new int[|xs|](k requires 0 <= k < |xs| => xs[k]);
    assert a[..] == xs;
    var i := 0;
    while i < a.Length
      invariant 0 <= i <= a.Length
      invariant Ascending(a[..i])
      invariant multiset(a[..]) == multiset(xs)
    {
      InsertInto(a, i);
      i := i + 1;
    }
    assert a[..a.Length] == a[..];
    r := a[..];
  }

  /** One insertion step: moves a[i] left into the sorted prefix a[..i]. */
  method InsertInto(a: array<int>, i: nat)
    requires i < a.Length && Ascending(a[..i])
    modifies a
    ensures Ascending(a[..i + 1])
    ensures multiset(a[..]) == old(multiset(a[..]))
    ensures a[i + 1..] == old(a[i + 1..])
  {
    var j := i;
    while j > 0 && a[j - 1] > a[j]
      invariant 0 <= j <= i
      invariant forall k, l :: 0 <= k < l <= i && k != j && l != j ==> a[k] <= a[l]
      invariant forall l :: j < l <= i ==> a[j] <= a[l]
      invariant multiset(a[..]) == old(multiset(a[..]))
      invariant a[i + 1..] == old(a[i + 1..])
    {
      Swap(a, j - 1, j);
      j := j - 1;
    }
  }

  method Swap(a: array<int>, i: nat, j: nat)
    requires i < j < a.Length
    modifies a
    ensures a[i] == old(a[j]) && a[j] == old(a[i])
    ensures forall k :: 0 <= k < a.Length && k != i && k != j ==> a[k] == old(a[k])
    ensures multiset(a[..]) == old(multiset(a[..]))
  {
    a[i], a[j] := a[j], a[i];
  }

  /** Sorting keeps the set of values. */
  lemma SameElems(xs: seq<int>, ys: seq<int>)
    requires multiset(xs) == multiset(ys)
    ensures Elems(xs) == Elems(ys)
    ensures forall x :: x in xs <==> x in ys
  {
    forall x ensures x in xs <==> x in ys {
      assert x in xs <==> x in multiset(xs);
      assert x in ys <==> x in multiset(ys);
    }
  }

  /** The inner `for _, v := range list { if v == x { found = true; break } }` loop. */
  method Contains(list: seq<int>, x: int) returns (found: bool)
    ensures found <==> x in list
  {
    found := false;
    var i := 0;
    while i < |list|
      invariant 0 <= i <= |list|
      invariant x !in list[..i]
    {
      if list[i] == x {
        found := true;
        break;
      }
      i := i + 1;
    }
  }
}
