/**
 * The Money Forward side before any request is sent: resolving a category
 * pair against the catalogue, grouping the catalogue for display, the sign
 * convention of the two create operations, the fields of the create form,
 * the `from` parameter of the history download and the CSV amount.
 */
module MoneyForward {
  import opened Wrappers
  import opened Utils
  import opened RubyString

  datatype LargeCategory = LargeCategory(id: int, name: string)
  datatype MediumCategory = MediumCategory(id: int, name: string, largeCategoryId: int)

  /** A large category with the names of the medium categories under it. */
  datatype CategoryGroup = CategoryGroup(largeCategory: string, mediumCategories: seq<string>)

  /** The four category lists read once from the index page, in page order. */
  datatype Catalogue = Catalogue(
    expenseLarge: seq<LargeCategory>,
    expenseMedium: seq<MediumCategory>,
    incomeLarge: seq<LargeCategory>,
    incomeMedium: seq<MediumCategory>)

  // ---------------------------------------------------------------------
  // Grouping

  /** The names of the mediums that belong to `largeId`, in catalogue order. */
  function MediumNamesUnder(mediums: seq<MediumCategory>, largeId: int): (names: seq<string>)
    ensures |names| <= |mediums|
    ensures forall n :: n in names <==>
      exists m :: m in mediums && m.largeCategoryId == largeId && m.name == n
  {
    if mediums == [] then []
    else
      var rest := MediumNamesUnder(mediums[1..], largeId);
      assert forall m :: m in mediums[1..] ==> m in mediums;
      assert forall m :: m in mediums ==> m == mediums[0] || m in mediums[1..];
      (if mediums[0].largeCategoryId == largeId then [mediums[0].name] else []) + rest
  }

  /** Selection keeps the catalogue order: it distributes over concatenation. */
  lemma {:induction false} MediumNamesUnderAppend(a: seq<MediumCategory>, b: seq<MediumCategory>, largeId: int)
    ensures MediumNamesUnder(a + b, largeId) == MediumNamesUnder(a, largeId) + MediumNamesUnder(b, largeId)
  {
    if a == [] {
      assert a + b == b;
    } else {
      var ab := a + b;
      var h := if a[0].largeCategoryId == largeId then [a[0].name] else [];
      assert ab[0] == a[0];
      assert ab[1..] == a[1..] + b;
      MediumNamesUnderAppend(a[1..], b, largeId);
      calc {
        MediumNamesUnder(ab, largeId);
        h + MediumNamesUnder(a[1..] + b, largeId);
        h + (MediumNamesUnder(a[1..], largeId) + MediumNamesUnder(b, largeId));
        (h + MediumNamesUnder(a[1..], largeId)) + MediumNamesUnder(b, largeId);
      }
    }
  }

  function Groups(larges: seq<LargeCategory>, mediums: seq<MediumCategory>): seq<CategoryGroup>
  {
    seq(|larges|, i requires 0 <= i < |larges| => CategoryGroup(larges[i].name, MediumNamesUnder(mediums, larges[i].id)))
  }

  /**
   * `expense_categories`: one group per expense large category, in order,
   * listing exactly the expense mediums whose `large_category_id` is its id,
   * in catalogue order and with repetitions kept.
   */
  function ExpenseCategories(c: Catalogue): (groups: seq<CategoryGroup>)
    ensures |groups| == |c.expenseLarge|
    ensures forall i :: 0 <= i < |groups| ==> groups[i].largeCategory == c.expenseLarge[i].name
    ensures forall i, n :: 0 <= i < |groups| ==>
      (n in groups[i].mediumCategories <==>
        exists m :: m in c.expenseMedium && m.largeCategoryId == c.expenseLarge[i].id && m.name == n)
    ensures forall i :: 0 <= i < |groups| ==>
      groups[i].mediumCategories == MediumNamesUnder(c.expenseMedium, c.expenseLarge[i].id)
  {
    Groups(c.expenseLarge, c.expenseMedium)
  }

  /** `income_categories`: the same grouping over the income lists. */
  function IncomeCategories(c: Catalogue): (groups: seq<CategoryGroup>)
    ensures |groups| == |c.incomeLarge|
    ensures forall i :: 0 <= i < |groups| ==> groups[i].largeCategory == c.incomeLarge[i].name
    ensures forall i, n :: 0 <= i < |groups| ==>
      (n in groups[i].mediumCategories <==>
        exists m :: m in c.incomeMedium && m.largeCategoryId == c.incomeLarge[i].id && m.name == n)
    ensures forall i :: 0 <= i < |groups| ==>
      groups[i].mediumCategories == MediumNamesUnder(c.incomeMedium, c.incomeLarge[i].id)
  {
    Groups(c.incomeLarge, c.incomeMedium)
  }

  // ---------------------------------------------------------------------
  // Category resolution

  function LargeNotFound(scope: string, name: string): string {
    "Invalid " + scope + " category, large_category: " + name + " not found"
  }

  function MediumNotFound(scope: string, name: string): string {
    "Invalid " + scope + " category, medium_category: " + name + " not found"
  }

  /** `i` is the first large category named `name`. */
  predicate IsFirstLarge(larges: seq<LargeCategory>, name: string, i: int) {
    0 <= i < |larges| && larges[i].name == name
    && forall j :: 0 <= j < i ==> larges[j].name != name
  }

  /** `k` is the first medium category named `name` under the large category `largeId`. */
  predicate IsFirstMedium(mediums: seq<MediumCategory>, name: string, largeId: int, k: int) {
    0 <= k < |mediums| && mediums[k].name == name && mediums[k].largeCategoryId == largeId
    && forall j :: 0 <= j < k ==> !(mediums[j].name == name && mediums[j].largeCategoryId == largeId)
  }

  /**
   * The lookups at the start of `create_transaction`: the first large
   * category with the requested name, then the first medium with the
   * requested name that belongs to it; either miss raises.
   */
  function ResolveCategories(
    larges: seq<LargeCategory>, mediums: seq<MediumCategory>, scope: string,
    large: string, medium: string): (r: Result<(LargeCategory, MediumCategory), string>)
    ensures (forall i :: 0 <= i < |larges| ==> larges[i].name != large) ==>
      r == Failure(LargeNotFound(scope, large))
    ensures forall i :: IsFirstLarge(larges, large, i) ==>
      (r.Success? <==> exists k :: IsFirstMedium(mediums, medium, larges[i].id, k))
      && (r.Failure? ==> r == Failure(MediumNotFound(scope, medium)))
      && (forall k :: IsFirstMedium(mediums, medium, larges[i].id, k) ==> r == Success((larges[i], mediums[k])))
  {
    match FirstIndex(larges, (l: LargeCategory) => l.name == large)
    case None => Failure(LargeNotFound(scope, large))
    case Some(i) =>
      var largeObj := larges[i];
      assert forall i' | IsFirstLarge(larges, large, i') :: i' == i;
      match FirstIndex(mediums, (m: MediumCategory) => m.name == medium && m.largeCategoryId == largeObj.id)
      case None => Failure(MediumNotFound(scope, medium))
      case Some(k) =>
        assert forall k' | IsFirstMedium(mediums, medium, largeObj.id, k') :: k' == k;
        assert IsFirstMedium(mediums, medium, largeObj.id, k);
        Success((largeObj, mediums[k]))
  }

  /** A medium of the right name under a different large category is not accepted. */
  lemma MediumUnderOtherLargeRejected(l: LargeCategory, m: MediumCategory, scope: string)
    requires m.largeCategoryId != l.id
    ensures ResolveCategories([l], [m], scope, l.name, m.name) == Failure(MediumNotFound(scope, m.name))
  {
  }

  /**
   * Only the first large category of a name is consulted, even when a later
   * one of the same name holds the requested medium.
   */
  lemma OnlyFirstLargeConsulted(l1: LargeCategory, l2: LargeCategory, m: MediumCategory, scope: string)
    requires l1.name == l2.name && l1.id != l2.id && m.largeCategoryId == l2.id
    ensures ResolveCategories([l1, l2], [m], scope, l1.name, m.name) == Failure(MediumNotFound(scope, m.name))
  {
  }

  // ---------------------------------------------------------------------
  // Dates and the create form

  /** `date.strftime("%Y/%m/%d")`. */
  function FormDate(d: Date): string
    requires ValidDate(d)
  {
    StrftimeYear(d.year) + "/" + ZeroPad(d.month, 2) + "/" + ZeroPad(d.day, 2)
  }

  /** `date.strftime("%Y-%m")`. */
  function FormMonth(d: Date): string
    requires ValidDate(d)
  {
    StrftimeYear(d.year) + "-" + ZeroPad(d.month, 2)
  }

  /** The `from` parameter of the history download: `"#{year}/#{format("%02d", month)}/01"`. */
  function HistoryFrom(year: int, month: int): string
  {
    IntToS(year) + "/" + Format02d(month) + "/01"
  }

  /** A field equal to a text that reads as `v` reads as `v` too. */
  lemma ReadsAs(field: string, text: string, v: int)
    requires field == text && ToI(text) == v
    ensures ToI(field) == v
  {
  }

  /** Where the fields of `y/mm/dd` lie. */
  lemma {:induction false} SlashFields(y: string, m: string, dd: string, s: string)
    requires |m| == 2 && |dd| == 2 && s == y + "/" + m + "/" + dd
    ensures |s| == |y| + 6 && s[|y|] == '/' && s[|y| + 3] == '/'
    ensures s[..|y|] == y && s[|y| + 1..|y| + 3] == m && s[|y| + 4..] == dd
  {
  }

  /**
   * The form date reads back as year, month and day, separated by slashes,
   * with month and day in two digits each.
   */
  lemma FormDateFields(d: Date)
    requires ValidDate(d)
    ensures var s := FormDate(d); var k := |StrftimeYear(d.year)|;
      |s| == k + 6 && s[k] == '/' && s[k + 3] == '/'
      && ToI(s[..k]) == d.year && ToI(s[k + 1..k + 3]) == d.month && ToI(s[k + 4..]) == d.day
    ensures var s := FormDate(d); var k := |StrftimeYear(d.year)|;
      |s| == k + 6 && AllDigits(s[k + 1..k + 3]) && AllDigits(s[k + 4..])
    ensures 0 <= d.year <= 9999 ==> |FormDate(d)| == 10
  {
    var y, m, dd := StrftimeYear(d.year), ZeroPad(d.month, 2), ZeroPad(d.day, 2);
    var s, k := FormDate(d), |y|;
    ZeroPadDigits(d.month, 2);
    ZeroPadDigits(d.day, 2);
    SlashFields(y, m, dd, s);
    ToIOfStrftimeYear(d.year);
    ToIOfZeroPad(d.month, 2);
    ToIOfZeroPad(d.day, 2);
    ReadsAs(s[..k], y, d.year);
    ReadsAs(s[k + 1..k + 3], m, d.month);
    ReadsAs(s[k + 4..], dd, d.day);
  }

  /**
   * The month field is the year and month of the form date, joined by a
   * hyphen; its month part is two digits that read back as the month.
   */
  lemma FormMonthAgreesWithFormDate(d: Date)
    requires ValidDate(d)
    ensures var s := FormDate(d); var k := |StrftimeYear(d.year)|;
      |s| == k + 6 && FormMonth(d) == s[..k] + "-" + s[k + 1..k + 3]
    ensures var t := FormMonth(d); var k := |StrftimeYear(d.year)|;
      |t| == k + 3 && t[k] == '-' && AllDigits(t[k + 1..]) && ToI(t[k + 1..]) == d.month
  {
    var y, m, dd := StrftimeYear(d.year), ZeroPad(d.month, 2), ZeroPad(d.day, 2);
    ZeroPadDigits(d.month, 2);
    ZeroPadDigits(d.day, 2);
    SlashFields(y, m, dd, FormDate(d));
    var t, k := FormMonth(d), |y|;
    assert t[k] == '-' && t[k + 1..] == m;
    ToIOfZeroPad(d.month, 2);
    ReadsAs(t[k + 1..], m, d.month);
  }

  /** The `from` string is the year, a slash, the month in two digits, and `/01`. */
  lemma HistoryFromFields(year: int, month: int)
    requires 1 <= month <= 12
    ensures var s := HistoryFrom(year, month); var k := |IntToS(year)|;
      |s| == k + 6 && s[k] == '/' && s[k + 3] == '/' && s[k + 4..] == "01"
      && ToI(s[..k]) == year && ToI(s[k + 1..k + 3]) == month
    ensures var s := HistoryFrom(year, month); var k := |IntToS(year)|;
      |s| == k + 6 && AllDigits(s[k + 1..k + 3])
  {
    var y, m, one := IntToS(year), ZeroPad(month, 2), "01";
    var s, k := HistoryFrom(year, month), |y|;
    assert Format02d(month) == m;
    ZeroPadDigits(month, 2);
    assert s == y + "/" + m + "/" + one;
    SlashFields(y, m, one, s);
    ToIOfIntToS(year);
    ToIOfZeroPad(month, 2);
    ReadsAs(s[..k], y, year);
    ReadsAs(s[k + 1..k + 3], m, month);
  }

  /**
   * For four-digit years the `from` string is the form date of the first of
   * the month (shorter years are printed unpadded by `from`, padded by `%Y`).
   */
  lemma HistoryFromIsBeginningOfMonth(d: Date)
    requires ValidDate(d) && d.year >= 1000
    ensures HistoryFrom(d.year, d.month) == FormDate(BeginningOfMonth(d))
  {
    ToIOfStrftimeYear(d.year);
    var y, m := IntToS(d.year), ZeroPad(d.month, 2);
    assert ZeroPad(1, 2) == "01" by {
      assert NatToS(1) == [DigitChar(1)];
    }
    calc {
      HistoryFrom(d.year, d.month);
      y + "/" + m + "/01";
      y + "/" + m + "/" + "01";
      FormDate(BeginningOfMonth(d));
    }
  }

  /** The fields of the create form that the model determines. */
  datatype CreateForm = CreateForm(
    isTransfer: string,
    isIncome: string,
    payment: string,
    updatedAt: string,
    month: string,
    amount: string,
    largeCategoryId: string,
    middleCategoryId: string,
    content: string)

  /**
   * `create_transaction` up to the request: resolve the categories (raising
   * on a miss, before anything is sent) and fill in the create form.
   */
  function CreateTransaction(
    larges: seq<LargeCategory>, mediums: seq<MediumCategory>, categoryScope: string,
    large: string, medium: string, date: Date, description: string,
    amount: int, income: bool): (r: Result<CreateForm, string>)
    requires ValidDate(date)
    ensures var res := ResolveCategories(larges, mediums, categoryScope, large, medium);
      (r.Failure? <==> res.Failure?) && (r.Failure? ==> r.error == res.error)
    ensures r.Success? ==>
      var (l, m) := ResolveCategories(larges, mediums, categoryScope, large, medium).value;
      var f := r.value;
      ToI(f.amount) == amount
      && f.isIncome == (if income then "1" else "0")
      && f.isTransfer == "0" && f.payment == "2"
      && f.updatedAt == FormDate(date) && f.month == FormMonth(date)
      && ToI(f.largeCategoryId) == l.id && ToI(f.middleCategoryId) == m.id
      && f.content == description
  {
    match ResolveCategories(larges, mediums, categoryScope, large, medium)
    case Failure(e) => Failure(e)
    case Success((l, m)) =>
      ToIOfIntToS(amount);
      ToIOfIntToS(l.id);
      ToIOfIntToS(m.id);
      Success(CreateForm(
        "0", if income then "1" else "0", "2",
        FormDate(date), FormMonth(date), IntToS(amount),
        IntToS(l.id), IntToS(m.id), description))
  }

  /**
   * `create_expense_transaction`: the expense lists and scope, the amount
   * negated, and `is_income` set to `"0"`.
   */
  function CreateExpenseTransaction(
    c: Catalogue, large: string, medium: string, date: Date,
    description: string, amount: int): (r: Result<CreateForm, string>)
    requires ValidDate(date)
    ensures r.Success? ==> ToI(r.value.amount) == -amount && r.value.isIncome == "0"
    ensures r.Failure? <==> ResolveCategories(c.expenseLarge, c.expenseMedium, "expense", large, medium).Failure?
    ensures r.Failure? ==> r.error == LargeNotFound("expense", large) || r.error == MediumNotFound("expense", medium)
  {
    CreateTransaction(c.expenseLarge, c.expenseMedium, "expense", large, medium, date, description, -amount, false)
  }

  /**
   * `create_income_transaction`: the income lists and scope, the amount
   * unchanged, and `is_income` set to `"1"`.
   */
  function CreateIncomeTransaction(
    c: Catalogue, large: string, medium: string, date: Date,
    description: string, amount: int): (r: Result<CreateForm, string>)
    requires ValidDate(date)
    ensures r.Success? ==> ToI(r.value.amount) == amount && r.value.isIncome == "1"
    ensures r.Failure? <==> ResolveCategories(c.incomeLarge, c.incomeMedium, "income", large, medium).Failure?
    ensures r.Failure? ==> r.error == LargeNotFound("income", large) || r.error == MediumNotFound("income", medium)
  {
    CreateTransaction(c.incomeLarge, c.incomeMedium, "income", large, medium, date, description, amount, true)
  }

  /** A CSV amount cell, e.g. `-1,500`: commas dropped, then `to_i`. */
  function CsvAmount(text: string): int
  {
    ToI(RemoveChar(text, ','))
  }

  /** Any cell whose characters, without the commas, spell `x` reads as `x`. */
  lemma CsvAmountReadsNumber(text: string, x: int)
    requires RemoveChar(text, ',') == IntToS(x)
    ensures CsvAmount(text) == x
  {
    ToIOfIntToS(x);
  }
}
