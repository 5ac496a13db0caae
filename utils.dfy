/**
 * The two monkey patches of the utilities file: `Date#beginning_of_month`
 * and `Array#delete_if_first`, together with `Array#index` with a block,
 * which the latter is built on.
 */
module Utils {
  import opened Wrappers

  /** A calendar date of the proleptic Gregorian calendar. */
  datatype Date = Date(year: int, month: int, day: int)

  predicate IsLeapYear(year: int) {
    year % 4 == 0 && (year % 100 != 0 || year % 400 == 0)
  }

  function DaysInMonth(year: int, month: int): (n: int)
    requires 1 <= month <= 12
    ensures 28 <= n <= 31
  {
    if month == 2 then (if IsLeapYear(year) then 29 else 28)
    else if month == 4 || month == 6 || month == 9 || month == 11 then 30
    else 31
  }

  /** Every Ruby `Date` object names an existing day. */
  predicate ValidDate(d: Date) {
    1 <= d.month <= 12 && 1 <= d.day <= DaysInMonth(d.year, d.month)
  }

  predicate SameMonth(a: Date, b: Date) {
    a.year == b.year && a.month == b.month
  }

  /** Chronological order: `a` is not later than `b`. */
  predicate DateLe(a: Date, b: Date) {
    a.year < b.year
    || (a.year == b.year && a.month < b.month)
    || (a.year == b.year && a.month == b.month && a.day <= b.day)
  }

  /** `Date#beginning_of_month`: the earliest day of the date's month. */
  function BeginningOfMonth(d: Date): (r: Date)
    requires ValidDate(d)
    ensures ValidDate(r) && SameMonth(r, d)
    ensures forall e :: ValidDate(e) && SameMonth(e, d) ==> DateLe(r, e)
  {
    Date(d.year, d.month, 1)
  }

  /** The first day of the month is never later than the date, and taking it twice changes nothing. */
  lemma BeginningOfMonthProperties(d: Date)
    requires ValidDate(d)
    ensures DateLe(BeginningOfMonth(d), d)
    ensures BeginningOfMonth(BeginningOfMonth(d)) == BeginningOfMonth(d)
    ensures BeginningOfMonth(d).day == 1
  {
  }

  /** `Array#index` with a block: the lowest index whose element satisfies `p`, or `nil`. */
  function FirstIndex<T>(s: seq<T>, p: T -> bool): (r: Option<nat>)
    ensures r.Some? ==> r.value < |s| && p(s[r.value])
    ensures r.Some? ==> forall j :: 0 <= j < r.value ==> !p(s[j])
    ensures r.None? ==> forall j :: 0 <= j < |s| ==> !p(s[j])
  {
    if s == [] then None
    else if p(s[0]) then Some(0)
    else match FirstIndex(s[1..], p)
      case None => None
      case Some(i) => Some(i + 1)
  }

  /**
   * What `delete_if_first` does to an array's contents: the deleted element
   * (or `nil`) and the remaining elements.
   */
  function DeleteFirst<T>(s: seq<T>, p: T -> bool): (r: (Option<T>, seq<T>))
    ensures r.0.None? <==> forall j :: 0 <= j < |s| ==> !p(s[j])
    ensures r.0.None? ==> r.1 == s
    ensures r.0.Some? ==> exists i :: 0 <= i < |s| && s[i] == r.0.value && p(s[i])
                                  && (forall j :: 0 <= j < i ==> !p(s[j]))
                                  && r.1 == s[..i] + s[i + 1..]
    ensures |r.1| == if r.0.Some? then |s| - 1 else |s|
    ensures multiset(s) == multiset(r.1) + if r.0.Some? then multiset{r.0.value} else multiset{}
  {
    match FirstIndex(s, p)
    case None => (None, s)
    case Some(i) =>
      assert s == s[..i] + [s[i]] + s[i + 1..];
      (Some(s[i]), s[..i] + s[i + 1..])
  }

  /** The elements taken and the elements left after one `delete_if_first` per predicate, in order. */
  ghost function DeleteEach<T>(s: seq<T>, ps: seq<T -> bool>): (seq<T>, seq<T>)
  {
    if ps == [] then ([], s)
    else
      var (taken, rest) := DeleteFirst(s, ps[0]);
      var (more, left) := DeleteEach(rest, ps[1..]);
      (if taken.Some? then [taken.value] + more else more, left)
  }

  /**
   * Consuming a pool with repeated `delete_if_first` calls takes at most one
   * element per call and never takes an element twice: what was taken and
   * what is left together make up exactly the original pool.
   */
  lemma {:induction false} DeleteEachConsumesAtMostOnce<T>(s: seq<T>, ps: seq<T -> bool>)
    ensures |DeleteEach(s, ps).0| <= |ps|
    ensures multiset(s) == multiset(DeleteEach(s, ps).0) + multiset(DeleteEach(s, ps).1)
  {
    if ps != [] {
      var (taken, rest) := DeleteFirst(s, ps[0]);
      DeleteEachConsumesAtMostOnce(rest, ps[1..]);
      var (more, left) := DeleteEach(rest, ps[1..]);
      if taken.Some? {
        assert multiset([taken.value] + more) == multiset{taken.value} + multiset(more);
      }
    }
  }

  /** A Ruby array, as far as `delete_if_first` changes it in place. */
  class RubyArray<T> {
    var elements: seq<T>

    constructor (elements: seq<T>)
      ensures this.elements == elements
    {
      this.elements := elements;
    }

    /**
     * `Array#delete_if_first`: removes and returns the first element that
     * satisfies `p`; with no such element returns `nil` and leaves the array alone.
     */
    method DeleteIfFirst(p: T -> bool) returns (deleted: Option<T>)
      modifies this
      ensures (deleted, elements) == DeleteFirst(old(elements), p)
    {
      var index := FirstIndex(elements, p);
      match index
      case None =>
        deleted := None;
      case Some(i) =>
        deleted := Some(elements[i]);
        elements := elements[..i] + elements[i + 1..];
    }
  }
}
