/**
 * The PASELI side: how a history record is classified into a Money Forward
 * record (`Transaction#charge?`, `Transaction#to_mf`) and how amount text
 * from the history and balance pages is normalised to an integer.
 */
module Paseli {
  import opened Wrappers
  import opened Utils
  import opened RubyString

  /** A large/medium category pair of Money Forward. */
  datatype Category = Category(large: string, medium: string)

  const ChargeDescription: string := "チャージ"
  const PaymentPrefix: string := "支払い("
  const IncomeCategory: Category := Category("未分類", "未分類")
  const ExpenseCategory: Category := Category("趣味・娯楽", "映画・音楽・ゲーム")

  /** One row of the PASELI history page. */
  datatype Transaction = Transaction(date: Date, description: string, amount: int)

  /** The record `to_mf` builds for Money Forward. */
  datatype MfTransaction = MfTransaction(
    date: Date,
    description: string,
    amount: int,
    categoryLarge: string,
    categoryMedium: string)

  /** `Transaction#charge?`. */
  predicate IsCharge(t: Transaction) {
    t.description == ChargeDescription
  }

  /**
   * `description` is matched by `\A支払い\((.+?)\)\z` with `item` as the
   * captured group: the anchors force the group to run from just after the
   * prefix up to the final `)`, `.+` needs at least one character, and `.`
   * does not match a newline.
   */
  predicate IsPaymentOf(description: string, item: string) {
    description == PaymentPrefix + item + ")"
    && item != []
    && forall i :: 0 <= i < |item| ==> item[i] != '\n'
  }

  /** The item captured from a payment description, or `nil` when the pattern does not match. */
  function PaymentItem(description: string): (item: Option<string>)
    ensures item.Some? ==> IsPaymentOf(description, item.value)
    ensures forall x :: IsPaymentOf(description, x) ==> item == Some(x)
  {
    var n := |PaymentPrefix|;
    if |description| >= n + 2
       && description[..n] == PaymentPrefix
       && description[|description| - 1] == ')'
       && forall i :: n <= i < |description| - 1 ==> description[i] != '\n'
    then
      var x := description[n..|description| - 1];
      assert description == PaymentPrefix + x + ")";
      Some(x)
    else
      assert forall x :: IsPaymentOf(description, x) ==>
        (description[..n] == PaymentPrefix && description[n..|description| - 1] == x);
      None
  }

  /**
   * `Transaction#to_mf`: a charge becomes an uncategorised income of the same
   * amount, a payment becomes an entertainment expense of the negated amount
   * described by its item, and anything else is discarded (`nil`).
   */
  function ToMf(t: Transaction): (r: Option<MfTransaction>)
    ensures IsCharge(t) ==>
      r == Some(MfTransaction(t.date, ChargeDescription, t.amount, IncomeCategory.large, IncomeCategory.medium))
    ensures forall item :: IsPaymentOf(t.description, item) ==>
      r == Some(MfTransaction(t.date, item, -t.amount, ExpenseCategory.large, ExpenseCategory.medium))
    ensures r.None? <==> !IsCharge(t) && forall item :: !IsPaymentOf(t.description, item)
    ensures r.Some? ==> r.value.date == t.date
  {
    if t.description == ChargeDescription then
      Some(MfTransaction(t.date, ChargeDescription, t.amount, IncomeCategory.large, IncomeCategory.medium))
    else
      match PaymentItem(t.description)
      case Some(item) =>
        Some(MfTransaction(t.date, item, -t.amount, ExpenseCategory.large, ExpenseCategory.medium))
      case None => None
  }

  /** `charge?` holds exactly for the records `to_mf` turns into uncategorised income. */
  lemma ChargeIsExactlyIncome(t: Transaction)
    ensures IsCharge(t) <==>
      ToMf(t).Some? && ToMf(t).value.categoryLarge == IncomeCategory.large
        && ToMf(t).value.categoryMedium == IncomeCategory.medium
  {
  }

  /** Classification looks only at description and amount; the date is carried over unchanged. */
  lemma ClassificationIgnoresDate(t: Transaction, d: Date)
    ensures ToMf(t.(date := d)).Some? == ToMf(t).Some?
    ensures ToMf(t).Some? ==> ToMf(t.(date := d)).value == ToMf(t).value.(date := d)
  {
  }

  /** A payment whose item is empty is not matched by the pattern and is discarded. */
  lemma EmptyItemDiscarded(d: Date, amount: int)
    ensures ToMf(Transaction(d, "支払い()", amount)) == None
  {
  }

  /** The item runs up to the last `)`, so it may itself contain parentheses. */
  lemma NestedParenthesesKept(d: Date, amount: int)
    ensures ToMf(Transaction(d, "支払い(映画(字幕))", amount))
         == Some(MfTransaction(d, "映画(字幕)", -amount, "趣味・娯楽", "映画・音楽・ゲーム"))
  {
    assert IsPaymentOf("支払い(映画(字幕))", "映画(字幕)");
  }

  /** Text after the closing parenthesis defeats the `\z` anchor. */
  lemma TrailingTextDiscarded(d: Date, amount: int)
    ensures ToMf(Transaction(d, "支払い(映画)済", amount)) == None
  {
  }

  /** A newline inside the item defeats `.`, which does not match it. */
  lemma NewlineInItemDiscarded(d: Date, amount: int)
    ensures ToMf(Transaction(d, "支払い(a\nb)", amount)) == None
  {
    var s := "支払い(a\nb)";
    assert s[5] == '\n';
  }

  /** Three sample records: a charge of 3000, a movie payment of 1500 and an unrecognised description. */
  lemma Examples(d: Date)
    ensures ToMf(Transaction(d, "チャージ", 3000)) == Some(MfTransaction(d, "チャージ", 3000, "未分類", "未分類"))
    ensures ToMf(Transaction(d, "支払い(映画)", 1500)) == Some(MfTransaction(d, "映画", -1500, "趣味・娯楽", "映画・音楽・ゲーム"))
    ensures ToMf(Transaction(d, "謎の取引", 500)) == None
  {
    assert IsPaymentOf("支払い(映画)", "映画");
    var s := "謎の取引";
    assert s[..|PaymentPrefix|] != PaymentPrefix by { assert s[0] != PaymentPrefix[0]; }
  }

  /**
   * The amount scheme of the history and balance pages: strip one trailing
   * unit word, drop every comma, and read the rest with `to_i`.
   */
  function NormaliseAmount(text: string, unit: string): int
  {
    ToI(RemoveChar(DeleteSuffix(text, unit), ','))
  }

  /** An amount cell of the history page, e.g. `1,500円`. */
  function YenAmount(text: string): int
  {
    NormaliseAmount(text, "円")
  }

  /** The point balance text of the balance page, e.g. `1,200ポイント`. */
  function PointAmount(text: string): int
  {
    NormaliseAmount(text, "ポイント")
  }

  /**
   * Any text whose digits, once the commas are gone, spell `x` normalises to
   * `x` when the unit word follows it.
   */
  lemma {:induction false} NormaliseAmountReadsNumber(body: string, unit: string, x: int)
    requires ',' !in unit
    requires RemoveChar(body, ',') == IntToS(x)
    ensures NormaliseAmount(body + unit, unit) == x
  {
    DeleteSuffixOfAppend(body, unit);
    ToIOfIntToS(x);
  }

  /** A thousands separator is ignored: `1,500円` reads as the digits `1500`. */
  lemma SeparatorIgnored(a: string, b: string)
    requires a != [] && AllDigits(a) && AllDigits(b)
    ensures YenAmount(a + "," + b + "円") == DigitsValue(a + b)
  {
    var body := a + "," + b;
    assert DeleteSuffix(body + "円", "円") == body by {
      DeleteSuffixOfAppend(body, "円");
    }
    assert RemoveChar(body, ',') == a + b by {
      DropSeparator(a, b);
    }
    assert ToI(a + b) == DigitsValue(a + b) by {
      ToIOfDigits(a + b, []);
      assert a + b + [] == a + b;
    }
  }

  lemma DropSeparator(a: string, b: string)
    requires AllDigits(a) && AllDigits(b)
    ensures RemoveChar(a + "," + b, ',') == a + b
  {
    var comma := [','];
    assert RemoveChar(comma + b, ',') == b by {
      assert ',' !in b by { forall i | 0 <= i < |b| ensures b[i] != ',' { assert IsDigit(b[i]); } }
      assert RemoveChar(comma, ',') == [] by { assert comma[1..] == []; }
      RemoveCharAppend(comma, b, ',');
      RemoveCharAbsent(b, ',');
    }
    assert RemoveChar(a + (comma + b), ',') == a + b by {
      assert ',' !in a by { forall i | 0 <= i < |a| ensures a[i] != ',' { assert IsDigit(a[i]); } }
      RemoveCharAppend(a, comma + b, ',');
      RemoveCharAbsent(a, ',');
    }
    assert a + (comma + b) == a + "," + b;
  }
}
