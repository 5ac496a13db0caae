# PASELI → Money Forward sync: the deterministic core

This project models, in Dafny, the decision logic of a small tool that copies
PASELI (a prepaid e-money account) history into a Money Forward household
ledger. Four pieces are modelled, each apart from the HTTP and scraping code
around it:

- **PASELI classification** (`Paseli`): `Transaction#charge?` and
  `Transaction#to_mf` turn a history row into an uncategorised income
  (a `チャージ` top-up), an entertainment expense (`支払い(<item>)`, described by
  the item), or `nil`. The module also has the amount text normalisation of the
  history and balance pages (`1,500円` → 1500).
- **Money Forward categories and create form** (`MoneyForward`): the category
  lookup at the start of `create_transaction`, which raises before any request
  on a miss. Also the grouping of `expense_categories`/`income_categories`,
  the sign convention of the two public create operations, the form's date
  and month fields, the `from` parameter of the history download, and the CSV
  amount cell.
- **Single-quote decoding** (`Quote`): `decode_single_quote` as an imperative
  loop proved against a recursive decoding function.
- **Utilities** (`Utils`): `Date#beginning_of_month`, and
  `Array#delete_if_first` as a class with a mutable element sequence, proved
  against a pure specification.

`RubyString` models the Ruby conversions these rely on:
- `String#to_i` and `Integer#to_s`, with the round trip between them;
- `format("%02d")` and the zero padding of `strftime`;
- `delete_suffix` and `gsub(",", "")`.

Three consequences of the code are kept in the model:
- the source amount is read with `to_i`, which may give a negative number,
  so amounts are integers;
- the payment pattern rejects an empty item and an item containing a
  newline;
- category lookup searches ordered lists and takes the first match, and
  that order is modelled.

`Wrappers` holds `Option` (Ruby's `nil`) and `Result` (a raised error and its
message).

The Regexp `/\A支払い\((.+?)\)\z/` is modelled exactly:
- the anchors make the captured item everything between the prefix and the
  final `)`, so nested parentheses stay in the item;
- `.+` needs at least one character;
- `.` does not match a newline, so an item with a newline is discarded.

`sync` and the `MoneyForwardClient::Transaction` struct it consumes are
defined outside the modelled files. `MfTransaction` here holds exactly the
keyword arguments that `to_mf` passes to that struct. `delete_if_first` is
modelled, with the property that repeated deletions never take an element
twice.

## Model

| member | source | states |
|---|---|---|
| `RubyString.SkipSpace` | src/paseli.rb:92 | `to_i` starts after the leading whitespace: the result is a suffix, everything dropped is whitespace, and it does not start with whitespace |
| `RubyString.LeadingDigits` | src/paseli.rb:92 | `to_i` reads the longest run of digits: the result is a digit prefix and the next character, if any, is not a digit |
| `RubyString.NatToS` | src/moneyforward.rb:172 | `Integer#to_s` of a natural: at least one digit, no leading zero, and the digits' value is the number |
| `RubyString.ToIOfIntToS` | src/moneyforward.rb:172-175 | `x.to_s.to_i == x` for every integer, so the amount and id fields of the form carry their numbers exactly |
| `RubyString.ToI` | src/paseli.rb:92 | base-10 `String#to_i`: whitespace, an optional sign, an optional `0d`/`0D` prefix, then the longest digit run; its contract is carried by `ToIOfDigits`, `ToIOfNegativeDigits`, `ToIOfDecimalPrefix`, `ToIOfNegativeDecimalPrefix` and `ToIOfIntToS` |
| `RubyString.ToIOfDigits` | src/moneyforward.rb:42 | `to_i` of a digit string followed by a non-digit is the digits' value, unless the digits are a lone `0` before `d`/`D` |
| `RubyString.ToIOfNegativeDigits` | src/moneyforward.rb:42 | the same after a leading `-`, giving the negated value |
| `RubyString.ToIOfDecimalPrefix` | src/paseli.rb:92 | a `0d`/`0D` prefix is skipped and the digits after it are read: `"0d5".to_i` is 5 |
| `RubyString.ToIOfNegativeDecimalPrefix` | src/paseli.rb:92 | the prefix is also skipped after `-`: `"-0d5".to_i` is -5 |
| `RubyString.IntToS` | src/moneyforward.rb:172 | `Integer#to_s`: never empty, starts with `-` exactly for negative numbers, and is all digits otherwise; `ToIOfIntToS` is its round trip |
| `RubyString.ZeroPad` | src/moneyforward.rb:170 | the padded text has exactly the requested width when the digits fit in it, and is the plain digits otherwise |
| `RubyString.ZeroPadDigits` | src/moneyforward.rb:170 | zero padding keeps the value and has at least the requested width; it has exactly that width whenever the number's digits fit, in particular for the widths 2 and 4 that `%02d`/`%m`/`%d`/`%Y` use |
| `RubyString.Format02d` | src/moneyforward.rb:18 | `format("%02d", n)`, with the sign counted in the width; its properties are stated by `Format02dReadsBack` |
| `RubyString.Format02dReadsBack` | src/moneyforward.rb:18 | `format("%02d", n)` has at least two characters, is exactly two digits for 0..99, and reads back as `n` |
| `RubyString.StrftimeYear` | src/moneyforward.rb:170-171 | `strftime("%Y")`, padded to four digits after the sign; its properties are stated by `ToIOfStrftimeYear` |
| `RubyString.ToIOfZeroPad` | src/moneyforward.rb:170-171 | a zero-padded `%m`/`%d`/`%02d` field reads back as its number |
| `RubyString.ToIOfStrftimeYear` | src/moneyforward.rb:170-171 | `%Y` reads back as the year; for non-negative years it is all digits (zero-padded), four characters for years 0..9999, and equal to `year.to_s` from 1000 on |
| `RubyString.DeleteSuffix` | src/paseli.rb:92 | `delete_suffix` removes the suffix when the text ends with it and otherwise returns the text unchanged |
| `RubyString.DeleteSuffixOfAppend` | src/paseli.rb:92 | `delete_suffix` undoes appending that suffix |
| `RubyString.RemoveChar` | src/paseli.rb:92 | `gsub(",", "")` leaves no comma and never lengthens the text |
| `RubyString.RemoveCharAppend` | src/paseli.rb:92 | comma removal distributes over concatenation, so the remaining characters keep their order |
| `RubyString.RemoveCharAbsent` | src/moneyforward.rb:42 | text without commas is left unchanged |
| `Utils.BeginningOfMonth` | src/utils.rb:4-6 | the result is a valid date in the same year and month, not later than any other valid date of that month |
| `Utils.BeginningOfMonthProperties` | src/utils.rb:4-6 | the first of the month is never later than the date, has day 1, and taking it twice changes nothing |
| `Utils.FirstIndex` | src/utils.rb:11 | `Array#index` with a block: the lowest index whose element satisfies the block, or `nil` exactly when none does |
| `Utils.DeleteFirst` | src/utils.rb:10-13 | `nil` and the array unchanged iff no element matches; otherwise the returned element is the one at the lowest matching index, the rest are `s[..i] + s[i+1..]`, the length drops by one and the multiset loses exactly that element |
| `Utils.DeleteEachConsumesAtMostOnce` | src/utils.rb:10-13 | repeated `delete_if_first` calls take at most one element each, and what was taken plus what is left is exactly the original multiset, so no element is consumed twice |
| `Utils.RubyArray.DeleteIfFirst` | src/utils.rb:10-13 | the in-place deletion returns and leaves exactly what `DeleteFirst` specifies for the old contents |
| `Paseli.PaymentItem` | src/paseli.rb:30-33 | yields an item exactly when the description is `支払い(` + item + `)` with a non-empty, newline-free item, and that item is the capture |
| `Paseli.ToMf` | src/paseli.rb:20-45 | a `チャージ` record becomes income of `+amount` in 未分類/未分類; a matched payment becomes an expense of `-amount` in 趣味・娯楽/映画・音楽・ゲーム described by its item; `nil` exactly for every other description; the date is kept |
| `Paseli.IsCharge` | src/paseli.rb:16-18 | `charge?`: the description is exactly `チャージ`; `ChargeIsExactlyIncome` ties it to `to_mf` |
| `Paseli.ChargeIsExactlyIncome` | src/paseli.rb:16-29 | `charge?` holds iff `to_mf` gives a record in the income category |
| `Paseli.ClassificationIgnoresDate` | src/paseli.rb:20-45 | changing only the date changes nothing but the date of the result |
| `Paseli.EmptyItemDiscarded` | src/paseli.rb:30-44 | `支払い()` is not matched and maps to `nil` |
| `Paseli.NestedParenthesesKept` | src/paseli.rb:30-37 | the item runs to the final `)`: `支払い(映画(字幕))` gives item `映画(字幕)` |
| `Paseli.TrailingTextDiscarded` | src/paseli.rb:30-44 | text after the closing parenthesis makes the record `nil` |
| `Paseli.NewlineInItemDiscarded` | src/paseli.rb:30-44 | a newline inside the parentheses makes the record `nil` |
| `Paseli.Examples` | src/paseli.rb:20-45 | a 3000 charge, a 1500 movie payment and an unrecognised description map as the classifier promises |
| `Paseli.NormaliseAmount` | src/paseli.rb:73-74 | `delete_suffix(unit).gsub(",", "").to_i`; `NormaliseAmountReadsNumber` states what it reads |
| `Paseli.YenAmount` | src/paseli.rb:92 | the history page's amount cell, with unit `円`; `SeparatorIgnored` and `NormaliseAmountReadsNumber` state what it reads |
| `Paseli.PointAmount` | src/paseli.rb:74 | the balance page's point text, with unit `ポイント`; `NormaliseAmountReadsNumber` states what it reads |
| `Paseli.NormaliseAmountReadsNumber` | src/paseli.rb:73-74 | with the unit word appended, any text that spells `x` once its commas are removed normalises to `x` |
| `Paseli.SeparatorIgnored` | src/paseli.rb:92 | a yen amount written with a thousands separator, such as `1,500円`, reads as the value of its digits run together (1500) |
| `Paseli.DropSeparator` | src/paseli.rb:92 | removing commas from two digit runs joined by a comma leaves the digits run together |
| `MoneyForward.MediumNamesUnder` | src/moneyforward.rb:55-57 | a name is listed iff some medium with that name has the given `large_category_id`; never more names than mediums |
| `MoneyForward.MediumNamesUnderAppend` | src/moneyforward.rb:55-57 | selection distributes over concatenation, so the names keep catalogue order |
| `MoneyForward.Groups` | src/moneyforward.rb:50-72 | the `map` shared by both groupings; its contract is carried by `ExpenseCategories` and `IncomeCategories` |
| `MoneyForward.ExpenseCategories` | src/moneyforward.rb:50-60 | one group per expense large category, in order, named after it and listing exactly the names of the expense mediums with its id, as `MediumNamesUnder` gives them: in catalogue order, repetitions kept |
| `MoneyForward.IncomeCategories` | src/moneyforward.rb:62-72 | the same over the income lists, again in catalogue order with repetitions kept |
| `MoneyForward.ResolveCategories` | src/moneyforward.rb:132-144 | with no large of that name, the large-category error; otherwise, taking the FIRST large of that name, success iff a medium has that name and belongs to that large's id, in which case the first such medium is returned, and otherwise the medium-category error |
| `MoneyForward.MediumUnderOtherLargeRejected` | src/moneyforward.rb:137-144 | a same-named medium under another large category raises the medium-category error |
| `MoneyForward.OnlyFirstLargeConsulted` | src/moneyforward.rb:132-144 | a later large category of the same name is never consulted, even when it holds the medium |
| `MoneyForward.CreateTransaction` | src/moneyforward.rb:132-177 | fails, with the lookup's message, exactly when the lookup fails, so no form exists then; otherwise the form's amount and ids read back as the given amount and the resolved ids; `is_income` is `"1"` iff income; the dates are `%Y/%m/%d` and `%Y-%m` of the date; the content is the description |
| `MoneyForward.CreateExpenseTransaction` | src/moneyforward.rb:74-94 | the form's amount reads back as `-amount` and `is_income` is `"0"`; failure iff the expense lookup fails, with one of the two expense messages |
| `MoneyForward.CreateIncomeTransaction` | src/moneyforward.rb:96-116 | the form's amount reads back as `amount` and `is_income` is `"1"`; failure iff the income lookup fails, with one of the two income messages |
| `MoneyForward.FormDate` | src/moneyforward.rb:170 | `date.strftime("%Y/%m/%d")`; its properties are stated by `FormDateFields` |
| `MoneyForward.FormMonth` | src/moneyforward.rb:171 | `date.strftime("%Y-%m")`; its properties are stated by `FormMonthAgreesWithFormDate` |
| `MoneyForward.HistoryFrom` | src/moneyforward.rb:18 | the `from` parameter; its properties are stated by `HistoryFromFields` and `HistoryFromIsBeginningOfMonth` |
| `MoneyForward.FormDateFields` | src/moneyforward.rb:170 | the form date is year, `/`, month, `/`, day; month and day are two decimal digits each (zero-padded), and every field reads back as the date's own; ten characters for four-digit years |
| `MoneyForward.FormMonthAgreesWithFormDate` | src/moneyforward.rb:170-171 | the month field is the form date's year and month joined by `-`; its month part is two decimal digits that read back as the month |
| `MoneyForward.HistoryFromFields` | src/moneyforward.rb:18 | `from` is `year.to_s`, `/`, the month as two decimal digits, `/01`; year and month read back as given |
| `MoneyForward.HistoryFromIsBeginningOfMonth` | src/moneyforward.rb:18 | for years from 1000 on, `from` is the `%Y/%m/%d` form of the first of the month |
| `MoneyForward.CsvAmount` | src/moneyforward.rb:42 | the CSV amount cell, `gsub(",", "").to_i`; its property is stated by `CsvAmountReadsNumber` |
| `MoneyForward.CsvAmountReadsNumber` | src/moneyforward.rb:42 | a CSV amount that spells `x` once its commas are removed reads as `x` |
| `Quote.Unescape` | src/quote.rb:6-19 | the decoding never lengthens the text |
| `Quote.DecodeSingleQuote` | src/quote.rb:3-19 | the accumulated `result` is exactly the left-to-right decoding, so it is no longer than the input |
| `Quote.DecodeSingleQuoteAsWritten` | src/quote.rb:3-20 | the method's value is that of its final `while` loop, `nil`, whatever the input |
| `Quote.AsWrittenDropsDecoding` | src/quote.rb:3-20 | the decoding of `it\'s` is `it's`, the string the as-written method fails to return |
| `Quote.NoBackslashUnchanged` | src/quote.rb:15-17 | a text without backslashes decodes to itself |
| `Quote.LoneBackslashCopied` | src/quote.rb:8-13 | a backslash not followed by `'`, a trailing one included, is copied verbatim |
| `Quote.Escape` | src/quote.rb:7-10 | the matching encoding: one character longer per `'`, and every `'` in it directly follows a backslash, so it never starts with a bare `'` |
| `Quote.UnescapeEscape` | src/quote.rb:7-10 | decoding an escaped text gives the text back |

## Left out

- HTTP and login: logging in, cookies, CSRF tokens, page fetching and HTML scraping are left out. This covers `initialize`, `build_client`, `fetch_mail`, `load_categories`, `establish_login_cookie`, `retrieve_login_page`, `extract_csrf_token`, `perform_login` and `fetch_user_name`. It also covers the page fetches of `history` and `current_balance`. All of this is network I/O through foreign libraries. The texts those pages yield are parameters of the model.
- The request part of `create_transaction` is left out: the wallet page, the CSRF token, the wallet's sub-account hash, the POST and the response body check (src/moneyforward.rb:146-182). Of the form, only the fields computed from the arguments are modelled.
- `Console` diagnostics, including the warning `to_mf` logs before returning `nil`, are side effects and are left out.
- Shift_JIS transcoding, `CSV.parse`, `Date.parse` of page text and `String#strip` are library behaviour and are left out. Dates enter the model already parsed, and of a CSV row only the amount cell is modelled.
- `String#to_i` is modelled without underscores between digits (`"1_000".to_i` is 1000 in Ruby, 1 here) and without bases other than 10. Its `0d`/`0D` radix prefix is modelled (`RubyString.ToIOfDecimalPrefix`); `RubyString.ToIOfDigits` and `RubyString.ToIOfNegativeDigits` therefore exclude a lone `0` followed by `d` or `D`.
- `Utils.Date` uses the proleptic Gregorian calendar. Ruby's `Date` switches to the Julian calendar before 1582-10-15; only the validity of such old dates is affected.
- `Utils.RubyArray.DeleteIfFirst` returns `Some(x)` for a deleted element. Ruby cannot tell a deleted `nil` element from "nothing deleted", and the model does not reproduce that ambiguity.
- `sync` and `MoneyForwardClient::Transaction` are defined outside the modelled files and are not part of this model.
- src/main.rb only reads environment variables and wires the clients together; it is not modelled.

## Findings

| source | as written | input that shows it | evidently intended | confidence | as-written member | corrected member |
|---|---|---|---|---|---|---|
| src/quote.rb:3-20 | the method ends with the `while` loop, so it returns `nil` and drops the decoded `result` | `it\'s` (decodes to `it's`, method returns `nil`) | return `result` after the loop | high; not executed | `Quote.DecodeSingleQuoteAsWritten` | `Quote.DecodeSingleQuote` |
